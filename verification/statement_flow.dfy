/** What the token automata make of whole method bodies, against the executions of their
    statements (internal/admin/value_type.go:523-672). */
module StatementFlow {
  import opened ReturnFlow
  import opened TokenPieces

  /** Statements, with every expression as the pieces it is made of. Branches and loop bodies are
      any statements: a block, another `if` behind an `else`, or a bare statement. Simple statements
      may leave their semicolon out. */
  datatype Statement =
    | Empty
    | Expression(value: seq<Piece>, ended: bool)
    | Return(value: seq<Piece>, ended: bool)
    | Throw(value: seq<Piece>, ended: bool)
    | Break(ended: bool)
    | Continue(ended: bool)
    | Declaration(word: string, head: seq<Piece>, inner: seq<Piece>)
    | Block(body: seq<Statement>)
    | If(test: seq<Piece>, consequent: Statement)
    | IfElse(test: seq<Piece>, consequent: Statement, alternative: Statement)
    | Loop(head: seq<Piece>, repeated: Statement)
    | DoWhile(repeated: Statement, test: seq<Piece>, ended: bool)
    | Switch(subject: seq<Piece>, clauses: seq<Clause>)
    | TryCatch(body: seq<Statement>, binding: seq<Piece>, handler: seq<Statement>)
    | TryFinally(body: seq<Statement>, finalizer: seq<Statement>)
    | Try(body: seq<Statement>, binding: seq<Piece>, handler: seq<Statement>, finalizer: seq<Statement>)

  /** A `case` with its guard, or `default`. */
  datatype Clause = Clause(isDefault: bool, guard: seq<Piece>, body: seq<Statement>)

  function Head(word: string, test: seq<Piece>): seq<Piece> {
    [Word(word), Code] + test + [Code]
  }

  function Guarded(word: string, binding: seq<Piece>, body: seq<Piece>): seq<Piece> {
    [Word(word)] + binding + [Braces(body)]
  }

  function Terminator(ended: bool): seq<Piece> {
    if ended then [End] else []
  }

  function Print(s: Statement): seq<Piece>
    decreases s, 0
  {
    match s
    case Empty => [End]
    case Expression(value, ended) => [Code] + value + Terminator(ended)
    case Return(value, ended) => [Word("return")] + value + Terminator(ended)
    case Throw(value, ended) => [Word("throw")] + value + Terminator(ended)
    case Break(ended) => [Word("break")] + Terminator(ended)
    case Continue(ended) => [Word("continue")] + Terminator(ended)
    case Declaration(word, head, inner) => [Word(word)] + head + [Braces(inner)]
    case Block(body) => [Braces(PrintAll(body))]
    case If(test, consequent) => Head("if", test) + Print(consequent)
    case IfElse(test, consequent, alternative) =>
      Head("if", test) + Print(consequent) + ([Word("else")] + Print(alternative))
    case Loop(head, repeated) => Head("while", head) + Print(repeated)
    case DoWhile(repeated, test, ended) => [Word("do")] + Print(repeated) + (Head("while", test) + Terminator(ended))
    case Switch(subject, clauses) => Head("switch", subject) + [Braces(PrintClauses(clauses))]
    case TryCatch(body, binding, handler) =>
      Guarded("try", [], PrintAll(body)) + Guarded("catch", binding, PrintAll(handler))
    case TryFinally(body, finalizer) => Guarded("try", [], PrintAll(body)) + Guarded("finally", [], PrintAll(finalizer))
    case Try(body, binding, handler, finalizer) =>
      Guarded("try", [], PrintAll(body)) + Guarded("catch", binding, PrintAll(handler))
      + Guarded("finally", [], PrintAll(finalizer))
  }

  function PrintAll(body: seq<Statement>): seq<Piece>
    decreases body, 1
  {
    if body == [] then [] else PrintAll(body[..|body| - 1]) + Print(body[|body| - 1])
  }

  function PrintClause(c: Clause): seq<Piece>
    decreases c, 2
  {
    (if c.isDefault then [Word("default")] else [Word("case")] + c.guard) + [Code] + PrintAll(c.body)
  }

  function PrintClauses(clauses: seq<Clause>): seq<Piece>
    decreases clauses, 3
  {
    if clauses == [] then [] else PrintClauses(clauses[..|clauses| - 1]) + PrintClause(clauses[|clauses| - 1])
  }

  // ---- Execution.

  /** Completions of section 6.2.4 of ECMA-262, without labels. */
  datatype Completion = Normal | Returned | Thrown | Broken | Continued

  /** Some evaluation of the tests and expressions completes the statement this way. A loop
      that never ends completes in no way. */
  predicate Runs(s: Statement, c: Completion)
    decreases s, 0
  {
    match s
    case Empty => c == Normal
    case Expression(_, _) => c == Normal || c == Thrown
    case Return(_, _) => c == Returned || c == Thrown
    case Throw(_, _) => c == Thrown
    case Break(_) => c == Broken
    case Continue(_) => c == Continued
    case Declaration(_, _, _) => c == Normal || c == Thrown
    case Block(body) => RunsAll(body, c)
    case If(_, consequent) => c == Normal || c == Thrown || Runs(consequent, c)
    case IfElse(_, consequent, alternative) => c == Thrown || Runs(consequent, c) || Runs(alternative, c)
    case Loop(_, repeated) => c == Normal || c == Thrown || (c == Returned && Runs(repeated, c))
    case DoWhile(repeated, _, _) =>
      || ((c == Normal || c == Thrown) && (Runs(repeated, Normal) || Runs(repeated, Continued)))
      || (c == Normal && Runs(repeated, Broken))
      || ((c == Thrown || c == Returned) && Runs(repeated, c))
    case Switch(_, clauses) =>
      || c == Thrown
      || (c == Normal && (!HasDefault(clauses) || RunsFromSome(clauses, Normal) || RunsFromSome(clauses, Broken)))
      || ((c == Returned || c == Continued) && RunsFromSome(clauses, c))
    case TryCatch(body, _, handler) => (c != Thrown && RunsAll(body, c)) || (RunsAll(body, Thrown) && RunsAll(handler, c))
    case TryFinally(body, finalizer) =>
      (c != Normal && RunsAll(finalizer, c)) || (RunsAll(finalizer, Normal) && RunsAll(body, c))
    case Try(body, _, handler, finalizer) =>
      || (c != Normal && RunsAll(finalizer, c))
      || (RunsAll(finalizer, Normal)
          && ((c != Thrown && RunsAll(body, c)) || (RunsAll(body, Thrown) && RunsAll(handler, c))))
  }

  predicate RunsAll(body: seq<Statement>, c: Completion)
    decreases body, 1
  {
    if body == [] then c == Normal
    else
      || (c != Normal && RunsAll(body[..|body| - 1], c))
      || (RunsAll(body[..|body| - 1], Normal) && Runs(body[|body| - 1], c))
  }

  predicate HasDefault(clauses: seq<Clause>) {
    exists k :: 0 <= k < |clauses| && clauses[k].isDefault
  }

  /** Section 14.12: execution enters at some clause and falls through to the ones behind it, so
      the last clause runs on entry or after the others. */
  predicate RunsFromSome(clauses: seq<Clause>, c: Completion)
    decreases clauses, 3
  {
    if clauses == [] then false
    else
      || (c != Normal && RunsFromSome(clauses[..|clauses| - 1], c))
      || RunsAll(clauses[|clauses| - 1].body, c)
  }

  // ---- Names.

  /** The words the automata know, which a property can bear as its name. */
  const RESERVED := {"return", "throw", "break", "case", "default", "switch"}

  /** No property outside groups is named by such a word. */
  predicate Plain(pieces: seq<Piece>) {
    forall p :: p in pieces && p.Word? ==> p.text !in RESERVED
  }

  /** An expression, which holds no semicolon outside groups. The head of a loop may. */
  predicate PlainExpression(pieces: seq<Piece>) {
    Plain(pieces) && !HasEnd(pieces)
  }

  /** No name like a reserved word stands outside the groups of the statement or, in a switch, of
      its clauses. */
  predicate Nameless(s: Statement)
    decreases s, 0
  {
    match s
    case Expression(value, _) => PlainExpression(value)
    case Return(value, _) => PlainExpression(value)
    case Throw(value, _) => PlainExpression(value)
    case Declaration(word, head, _) => word !in RESERVED && PlainExpression(head)
    case If(test, consequent) => PlainExpression(test) && Nameless(consequent)
    case IfElse(test, consequent, alternative) => PlainExpression(test) && Nameless(consequent) && Nameless(alternative)
    case Loop(head, repeated) => Plain(head) && Nameless(repeated)
    case DoWhile(repeated, test, _) => Nameless(repeated) && PlainExpression(test)
    case Switch(subject, clauses) => PlainExpression(subject) && ClausesNameless(clauses)
    case TryCatch(_, binding, _) => PlainExpression(binding)
    case Try(_, binding, _, _) => PlainExpression(binding)
    case _ => true
  }

  predicate AllNameless(body: seq<Statement>)
    decreases body, 1
  {
    forall k :: 0 <= k < |body| ==> Nameless(body[k])
  }

  predicate ClauseNameless(c: Clause)
    decreases c, 2
  {
    PlainExpression(c.guard) && AllNameless(c.body)
  }

  predicate ClausesNameless(clauses: seq<Clause>)
    decreases clauses, 3
  {
    forall k :: 0 <= k < |clauses| ==> ClauseNameless(clauses[k])
  }

  /** No semicolon is left out outside the groups of the statement. */
  predicate Ended(s: Statement) {
    match s
    case Expression(_, ended) => ended
    case Return(_, ended) => ended
    case Throw(_, ended) => ended
    case Break(ended) => ended
    case Continue(ended) => ended
    case If(_, consequent) => Ended(consequent)
    case IfElse(_, consequent, alternative) => Ended(consequent) && Ended(alternative)
    case Loop(_, repeated) => Ended(repeated)
    case DoWhile(repeated, _, ended) => Ended(repeated) && ended
    case _ => true
  }

  predicate AllEnded(body: seq<Statement>) {
    forall k :: 0 <= k < |body| ==> Ended(body[k])
  }

  // ---- The return automaton on statements.

  lemma {:induction false} ReturnConcat(st: ReturnState, a: seq<Piece>, b: seq<Piece>)
    ensures ReadReturn(st, a + b) == ReadReturn(ReadReturn(st, a), b)
  {
    if b == [] {
      assert a + b == a;
    } else {
      assert (a + b)[..|a + b| - 1] == a + b[..|b| - 1];
      ReturnConcat(st, a, b[..|b| - 1]);
    }
  }

  lemma ReturnOne(st: ReturnState, p: Piece)
    ensures ReadReturn(st, [p]) == ReturnStep(st, p)
  {
    assert [p][..0] == [];
  }

  /** A returned statement stands in it outside groups. */
  predicate HoldsReturn(s: Statement) {
    match s
    case Return(_, _) => true
    case If(_, consequent) => HoldsReturn(consequent)
    case IfElse(_, consequent, alternative) => HoldsReturn(consequent) || HoldsReturn(alternative)
    case Loop(_, repeated) => HoldsReturn(repeated)
    case DoWhile(repeated, _, _) => HoldsReturn(repeated)
    case _ => false
  }

  /** Code behind a finished return. */
  function Coded(st: ReturnState): ReturnState {
    if st.found && st.semicolon then st.(invalid := true) else st
  }

  function Finished(st: ReturnState, ended: bool): ReturnState {
    if st.found && ended then st.(semicolon := true) else st
  }

  /** Without names a statement counts by its returns, its semicolons and the code it shows. */
  function AfterReturn(st: ReturnState, s: Statement): ReturnState
    decreases s
  {
    match s
    case Empty => Finished(st, true)
    case Return(_, ended) => ReturnState(true, ended, false)
    case Block(_) => st
    case Expression(_, ended) => Finished(Coded(st), ended)
    case Throw(_, ended) => Finished(Coded(st), ended)
    case Break(ended) => Finished(Coded(st), ended)
    case Continue(ended) => Finished(Coded(st), ended)
    case If(_, consequent) => AfterReturn(Coded(st), consequent)
    case IfElse(_, consequent, alternative) => AfterReturn(Coded(AfterReturn(Coded(st), consequent)), alternative)
    case Loop(head, repeated) => AfterReturn(Coded(Finished(Coded(st), HasEnd(head))), repeated)
    case DoWhile(repeated, _, ended) => Finished(Coded(AfterReturn(Coded(st), repeated)), ended)
    case _ => Coded(st)
  }

  function AfterReturns(st: ReturnState, body: seq<Statement>): ReturnState {
    if body == [] then st else AfterReturn(AfterReturns(st, body[..|body| - 1]), body[|body| - 1])
  }

  predicate Silent(pieces: seq<Piece>) {
    Word("return") !in pieces && End !in pieces
  }

  lemma {:induction false} ReadsSilent(st: ReturnState, pieces: seq<Piece>)
    requires Silent(pieces)
    ensures ReadReturn(st, pieces) == st || ReadReturn(st, pieces) == Coded(st)
  {
    if pieces != [] {
      assert pieces[|pieces| - 1] in pieces;
      ReadsSilent(st, pieces[..|pieces| - 1]);
    }
  }

  lemma ReadsCode(st: ReturnState, first: Piece, rest: seq<Piece>, ended: bool)
    requires Counts(first) && first != Word("return") && Silent(rest)
    ensures ReadReturn(st, [first] + rest + Terminator(ended)) == Finished(Coded(st), ended)
  {
    ReturnConcat(st, [first], rest);
    ReturnOne(st, first);
    ReadsSilent(Coded(st), rest);
    ReturnConcat(st, [first] + rest, Terminator(ended));
    ReturnOne(Coded(st), End);
  }

  /** The returned expression does not finish the return. */
  lemma ReadsOwn(st: ReturnState, value: seq<Piece>, ended: bool)
    requires PlainExpression(value)
    ensures ReadReturn(st, Print(Return(value, ended))) == ReturnState(true, ended, false)
  {
    var found := ReturnState(true, false, false);
    ReturnConcat(st, [Word("return")], value);
    ReturnOne(st, Word("return"));
    ReadsSilent(found, value);
    ReturnConcat(st, [Word("return")] + value, Terminator(ended));
    ReturnOne(found, End);
  }

  /** The semicolons in the head of a loop finish what was found before it. */
  lemma {:induction false} ReadsEnds(st: ReturnState, pieces: seq<Piece>)
    requires Word("return") !in pieces
    ensures var after := ReadReturn(st, pieces);
            && after.found == st.found && (!st.found ==> after == st) && (st.invalid ==> after.invalid)
            && (st.found ==> (after.semicolon <==> st.semicolon || HasEnd(pieces)))
  {
    if pieces != [] {
      var init, last := pieces[..|pieces| - 1], pieces[|pieces| - 1];
      assert pieces == init + [last];
      ReadsEnds(st, init);
    }
  }

  lemma HeadReads(st: ReturnState, word: string, test: seq<Piece>)
    requires Plain(test) && word != "return"
    ensures ReadReturn(st, Head(word, test)) == Coded(Finished(Coded(st), HasEnd(test)))
  {
    if HasEnd(test) {
      var front := [Word(word), Code] + test;
      ReadsEnds(st, front);
      ReturnConcat(st, front, [Code]);
      ReturnOne(ReadReturn(st, front), Code);
    } else {
      assert Head(word, test) == [Word(word)] + ([Code] + test + [Code]) + Terminator(false);
      ReadsCode(st, Word(word), [Code] + test + [Code], false);
    }
  }

  predicate Compound(s: Statement) {
    s.If? || s.IfElse? || s.Loop? || s.DoWhile?
  }

  /** A simple statement shows code without a return, and its semicolon. */
  lemma SimplePrint(s: Statement) returns (first: Piece, rest: seq<Piece>, ended: bool)
    requires Nameless(s) && !Compound(s) && !s.Empty? && !s.Block? && !s.Return?
    ensures Print(s) == [first] + rest + Terminator(ended)
    ensures Counts(first) && first != Word("return") && Silent(rest)
    ensures ended == ((s.Expression? || s.Throw? || s.Break? || s.Continue?) && s.ended)
  {
    hide PrintAll, PrintClauses, ClausesNameless;
    ended := (s.Expression? || s.Throw? || s.Break? || s.Continue?) && s.ended;
    match s
    case Expression(value, _) => first, rest := Code, value;
    case Throw(value, _) => first, rest := Word("throw"), value;
    case Break(_) => first, rest := Word("break"), [];
    case Continue(_) => first, rest := Word("continue"), [];
    case Declaration(word, head, inner) => first, rest := Word(word), head + [Braces(inner)];
    case Switch(subject, clauses) => first, rest := Word("switch"), [Code] + subject + [Code] + [Braces(PrintClauses(clauses))];
    case _ => first, rest := TryPrint(s);
  }

  lemma TryPrint(s: Statement) returns (first: Piece, rest: seq<Piece>)
    requires Nameless(s) && (s.TryCatch? || s.TryFinally? || s.Try?)
    ensures Print(s) == [first] + rest + Terminator(false) && first == Word("try") && Silent(rest)
  {
    hide PrintAll;
    first := Word("try");
    match s
    case TryCatch(body, binding, handler) => rest := [Braces(PrintAll(body))] + Guarded("catch", binding, PrintAll(handler));
    case TryFinally(body, finalizer) => rest := [Braces(PrintAll(body))] + Guarded("finally", [], PrintAll(finalizer));
    case Try(body, binding, handler, finalizer) =>
      rest := [Braces(PrintAll(body))] + Guarded("catch", binding, PrintAll(handler)) + Guarded("finally", [], PrintAll(finalizer));
  }

  lemma SimpleReads(st: ReturnState, s: Statement)
    requires Nameless(s) && !Compound(s) && !s.Empty? && !s.Block? && !s.Return?
    ensures ReadReturn(st, Print(s)) == AfterReturn(st, s)
  {
    hide ReadReturn, Coded, Finished, Print, Silent, Nameless;
    var first, rest, ended := SimplePrint(s);
    ReadsCode(st, first, rest, ended);
    NotFinished(Coded(st));
  }

  lemma NotFinished(st: ReturnState)
    ensures Finished(st, false) == st
  {
  }

  /** Without names, what the return automaton makes of a statement. */
  lemma {:induction false} StatementReturns(st: ReturnState, s: Statement)
    requires Nameless(s)
    ensures ReadReturn(st, Print(s)) == AfterReturn(st, s)
    decreases s
  {
    hide ReadReturn, Plain;
    match s
    case Empty => ReturnOne(st, End);
    case Block(body) => ReturnOne(st, Braces(PrintAll(body)));
    case Return(value, ended) => ReadsOwn(st, value, ended);
    case If(test, consequent) =>
      HeadReads(st, "if", test);
      ReturnConcat(st, Head("if", test), Print(consequent));
      StatementReturns(Coded(st), consequent);
    case Loop(head, repeated) =>
      HeadReads(st, "while", head);
      ReturnConcat(st, Head("while", head), Print(repeated));
      StatementReturns(Coded(Finished(Coded(st), HasEnd(head))), repeated);
    case IfElse(test, consequent, alternative) =>
      HeadReads(st, "if", test);
      StatementReturns(Coded(st), consequent);
      var middle := AfterReturn(Coded(st), consequent);
      ReturnOne(middle, Word("else"));
      StatementReturns(Coded(middle), alternative);
      ReturnIfElse(st, test, consequent, alternative);
    case DoWhile(repeated, test, ended) =>
      ReturnOne(st, Word("do"));
      StatementReturns(Coded(st), repeated);
      HeadReads(AfterReturn(Coded(st), repeated), "while", test);
      ReturnDoWhile(st, repeated, test, ended);
    case _ => SimpleReads(st, s);
  }

  lemma ReturnIfElse(st: ReturnState, test: seq<Piece>, consequent: Statement, alternative: Statement)
    ensures ReadReturn(st, Print(IfElse(test, consequent, alternative)))
         == ReadReturn(ReadReturn(ReadReturn(ReadReturn(st, Head("if", test)), Print(consequent)), [Word("else")]), Print(alternative))
  {
    hide ReadReturn, Head;
    var first := Head("if", test) + Print(consequent);
    ReturnConcat(st, Head("if", test), Print(consequent));
    ReturnConcat(st, first, [Word("else")] + Print(alternative));
    ReturnConcat(ReadReturn(st, first), [Word("else")], Print(alternative));
  }

  lemma ReturnDoWhile(st: ReturnState, repeated: Statement, test: seq<Piece>, ended: bool)
    ensures ReadReturn(st, Print(DoWhile(repeated, test, ended)))
         == Finished(ReadReturn(ReadReturn(ReadReturn(st, [Word("do")]), Print(repeated)), Head("while", test)), ended)
  {
    var first, last := [Word("do")] + Print(repeated), Head("while", test);
    ReturnConcat(st, [Word("do")], Print(repeated));
    ReturnConcat(st, first, last + Terminator(ended));
    ReturnConcat(ReadReturn(st, first), last, Terminator(ended));
    ReturnOne(ReadReturn(ReadReturn(st, first), last), End);
  }

  lemma {:induction false} BodyReturns(body: seq<Statement>)
    requires AllNameless(body)
    ensures ReadReturn(NO_RETURN, PrintAll(body)) == AfterReturns(NO_RETURN, body)
  {
    if body != [] {
      var init, last := body[..|body| - 1], body[|body| - 1];
      BodyReturns(init);
      ReturnConcat(NO_RETURN, PrintAll(init), Print(last));
      StatementReturns(AfterReturns(NO_RETURN, init), last);
    }
  }

  // ---- Returns and semicolons.

  lemma {:induction false} AfterReturnFound(st: ReturnState, s: Statement)
    ensures AfterReturn(st, s).found <==> st.found || HoldsReturn(s)
    decreases s
  {
    match s
    case If(_, consequent) => AfterReturnFound(Coded(st), consequent);
    case IfElse(_, consequent, alternative) =>
      AfterReturnFound(Coded(st), consequent);
      AfterReturnFound(Coded(AfterReturn(Coded(st), consequent)), alternative);
    case Loop(head, repeated) => AfterReturnFound(Coded(Finished(Coded(st), HasEnd(head))), repeated);
    case DoWhile(repeated, _, _) => AfterReturnFound(Coded(st), repeated);
    case _ =>
  }

  /** The last return stands in this statement, and no code behind its word follows a semicolon. */
  ghost predicate ReturnDecides(body: seq<Statement>, k: nat) {
    && k < |body| && HoldsReturn(body[k]) && (forall j :: k < j < |body| ==> !HoldsReturn(body[j]))
    && EndsInReturnWord(PrintAll(body))
  }

  lemma {:induction false} LastReturn(body: seq<Statement>) returns (k: nat)
    ensures AfterReturns(NO_RETURN, body).found <==> exists j :: 0 <= j < |body| && HoldsReturn(body[j])
    ensures AfterReturns(NO_RETURN, body).found ==>
              k < |body| && HoldsReturn(body[k]) && forall j :: k < j < |body| ==> !HoldsReturn(body[j])
  {
    k := 0;
    if body != [] {
      var init, last := body[..|body| - 1], body[|body| - 1];
      k := LastReturn(init);
      AfterReturnFound(AfterReturns(NO_RETURN, init), last);
      if HoldsReturn(last) {
        k := |init|;
      } else if j :| 0 <= j < |body| && HoldsReturn(body[j]) {
        assert HoldsReturn(init[j]);
      }
    }
  }

  lemma ReturnDecidesIff(body: seq<Statement>)
    requires AllNameless(body)
    ensures EndsInReturnWord(PrintAll(body)) <==> exists k: nat :: ReturnDecides(body, k)
  {
    ReturnAcceptsIff(PrintAll(body));
    BodyReturns(body);
    var k := LastReturn(body);
    if EndsInReturnWord(PrintAll(body)) {
      assert ReturnDecides(body, k);
    }
  }

  /** Between statements, a return that was found is finished. */
  predicate Between(st: ReturnState) {
    st.found ==> st.semicolon
  }

  /** Shows nothing outside groups: the return automaton does not notice it. */
  predicate Quiet(s: Statement) {
    s.Empty? || s.Block?
  }

  /** The last word of the statement belongs to a return statement. */
  predicate TailReturn(s: Statement) {
    match s
    case Return(_, _) => true
    case If(_, consequent) => TailReturn(consequent)
    case IfElse(_, _, alternative) => TailReturn(alternative)
    case Loop(_, repeated) => TailReturn(repeated)
    case _ => false
  }

  predicate ReadsAs(st: ReturnState, s: Statement, after: ReturnState) {
    && Between(after)
    && if HoldsReturn(s) then after.found && (after.Complete() <==> TailReturn(s))
       else after.found == st.found && (after.Complete() <==> st.Complete() && Quiet(s))
  }

  lemma {:induction false} TailHolds(s: Statement)
    ensures TailReturn(s) ==> HoldsReturn(s)
  {
    match s
    case If(_, consequent) => TailHolds(consequent);
    case IfElse(_, _, alternative) => TailHolds(alternative);
    case Loop(_, repeated) => TailHolds(repeated);
    case _ =>
  }

  lemma {:induction false} EndedReturns(st: ReturnState, s: Statement)
    requires Between(st) && Ended(s)
    ensures ReadsAs(st, s, AfterReturn(st, s))
    decreases s
  {
    TailHolds(s);
    match s
    case If(_, consequent) => EndedReturns(Coded(st), consequent);
    case IfElse(_, consequent, alternative) =>
      TailHolds(alternative);
      EndedReturns(Coded(st), consequent);
      EndedReturns(Coded(AfterReturn(Coded(st), consequent)), alternative);
    case Loop(head, repeated) => EndedReturns(Coded(Finished(Coded(st), HasEnd(head))), repeated);
    case DoWhile(repeated, _, _) => EndedReturns(Coded(st), repeated);
    case _ =>
  }

  /** With its semicolons too, a statement leaves the automaton complete exactly if its last word
      belongs to a return, or it was complete before and the statement shows nothing. */
  lemma StatementReadsReturn(st: ReturnState, s: Statement)
    requires Between(st) && Nameless(s) && Ended(s)
    ensures ReadsAs(st, s, ReadReturn(st, Print(s)))
  {
    StatementReturns(st, s);
    EndedReturns(st, s);
  }

  /** The return that counts is the last word that the body shows. */
  predicate ReturnTail(body: seq<Statement>, k: nat) {
    k < |body| && TailReturn(body[k]) && forall j :: k < j < |body| ==> Quiet(body[j])
  }

  ghost predicate EndsInReturn(body: seq<Statement>) {
    exists k: nat :: ReturnTail(body, k)
  }

  lemma ReturnTailGrows(body: seq<Statement>)
    requires body != []
    ensures var init, last := body[..|body| - 1], body[|body| - 1];
            EndsInReturn(body) <==> TailReturn(last) || (Quiet(last) && EndsInReturn(init))
  {
    hide TailReturn, Quiet;
    var init, last := body[..|body| - 1], body[|body| - 1];
    if TailReturn(last) {
      assert ReturnTail(body, |init|);
    }
    if Quiet(last) && EndsInReturn(init) {
      var k: nat :| ReturnTail(init, k);
      assert ReturnTail(body, k);
    }
    if k: nat :| ReturnTail(body, k) {
      assert k < |init| ==> ReturnTail(init, k);
    }
  }

  lemma {:induction false} BodyReadsReturn(body: seq<Statement>)
    requires AllEnded(body)
    ensures var after := AfterReturns(NO_RETURN, body);
            Between(after) && (after.Complete() <==> EndsInReturn(body))
  {
    hide TailReturn, Quiet, EndsInReturn, HoldsReturn, AfterReturn;
    if body == [] {
      NoTail();
    } else {
      var init, last := body[..|body| - 1], body[|body| - 1];
      BodyReadsReturn(init);
      EndedReturns(AfterReturns(NO_RETURN, init), last);
      TailHolds(last);
      QuietHolds(last);
      ReturnTailGrows(body);
    }
  }

  lemma NoTail()
    ensures !EndsInReturn([]) && !EndsInSwitch([])
  {
  }

  lemma QuietHolds(s: Statement)
    ensures Quiet(s) ==> !HoldsReturn(s)
  {
  }

  // ---- The words of a switch body.

  lemma {:induction false} WordsConcat(st: SwitchState, a: seq<Piece>, b: seq<Piece>)
    ensures ReadWords(st, a + b) == ReadWords(ReadWords(st, a), b)
  {
    if b == [] {
      assert a + b == a;
    } else {
      assert (a + b)[..|a + b| - 1] == a + b[..|b| - 1];
      WordsConcat(st, a, b[..|b| - 1]);
    }
  }

  lemma WordsOne(st: SwitchState, p: Piece)
    ensures ReadWords(st, [p]) == if p.Word? then st.ObserveWord(p.text) else st
  {
    assert [p][..0] == [];
  }

  lemma {:induction false} PlainWords(st: SwitchState, pieces: seq<Piece>)
    requires Plain(pieces)
    ensures ReadWords(st, pieces) == st
  {
    if pieces != [] {
      assert pieces[|pieces| - 1] in pieces;
      PlainWords(st, pieces[..|pieces| - 1]);
    }
  }

  function StatementWord(s: Statement): string {
    if s.Return? then "return" else if s.Throw? then "throw" else if s.Break? then "break" else ""
  }

  /** Without names a statement counts by the keywords it shows, one after the other. */
  function AfterStatement(st: SwitchState, s: Statement): SwitchState
    decreases s
  {
    match s
    case If(_, consequent) => AfterStatement(st, consequent)
    case IfElse(_, consequent, alternative) => AfterStatement(AfterStatement(st, consequent), alternative)
    case Loop(_, repeated) => AfterStatement(st, repeated)
    case DoWhile(repeated, _, _) => AfterStatement(st, repeated)
    case _ => st.ObserveWord(StatementWord(s))
  }

  function AfterBody(st: SwitchState, body: seq<Statement>): SwitchState {
    if body == [] then st else AfterStatement(AfterBody(st, body[..|body| - 1]), body[|body| - 1])
  }

  function AfterClause(st: SwitchState, c: Clause): SwitchState {
    AfterBody(st.ObserveWord(if c.isDefault then "default" else "case"), c.body)
  }

  function AfterClauses(st: SwitchState, clauses: seq<Clause>): SwitchState {
    if clauses == [] then st else AfterClause(AfterClauses(st, clauses[..|clauses| - 1]), clauses[|clauses| - 1])
  }

  lemma SimpleWords(st: SwitchState, s: Statement)
    requires Nameless(s) && !s.If? && !s.IfElse? && !s.Loop? && !s.DoWhile?
    ensures ReadWords(st, Print(s)) == st.ObserveWord(StatementWord(s))
  {
    hide ClauseNameless;
    var word, pieces := StatementWord(s), Print(s);
    if word == "" && !s.Switch? {
      assert Plain(pieces);
      PlainWords(st, pieces);
    } else {
      var first, rest := pieces[0], pieces[1..];
      assert pieces == [first] + rest && first.Word?;
      assert Plain(rest);
      WordsConcat(st, [first], rest);
      WordsOne(st, first);
      PlainWords(ReadWords(st, [first]), rest);
    }
  }

  lemma HeadWords(st: SwitchState, word: string, test: seq<Piece>)
    requires Plain(test) && word !in RESERVED
    ensures ReadWords(st, Head(word, test)) == st
  {
    PlainWords(st, Head(word, test));
  }

  lemma {:induction false} StatementWords(st: SwitchState, s: Statement)
    requires Nameless(s)
    ensures ReadWords(st, Print(s)) == AfterStatement(st, s)
    decreases s
  {
    hide ReadWords;
    match s
    case If(test, consequent) =>
      HeadWords(st, "if", test);
      WordsConcat(st, Head("if", test), Print(consequent));
      StatementWords(st, consequent);
    case Loop(head, repeated) =>
      HeadWords(st, "while", head);
      WordsConcat(st, Head("while", head), Print(repeated));
      StatementWords(st, repeated);
    case IfElse(test, consequent, alternative) =>
      HeadWords(st, "if", test);
      StatementWords(st, consequent);
      var between := AfterStatement(st, consequent);
      WordsConcat(st, Head("if", test), Print(consequent));
      WordsConcat(st, Head("if", test) + Print(consequent), [Word("else")] + Print(alternative));
      WordsConcat(between, [Word("else")], Print(alternative));
      WordsOne(between, Word("else"));
      StatementWords(between, alternative);
    case DoWhile(repeated, test, ended) =>
      var after := Head("while", test) + Terminator(ended);
      WordsConcat(st, [Word("do")], Print(repeated));
      WordsOne(st, Word("do"));
      StatementWords(st, repeated);
      WordsConcat(st, [Word("do")] + Print(repeated), after);
      PlainWords(AfterStatement(st, repeated), after);
    case _ => SimpleWords(st, s);
  }

  lemma {:induction false} BodyWords(st: SwitchState, body: seq<Statement>)
    requires AllNameless(body)
    ensures ReadWords(st, PrintAll(body)) == AfterBody(st, body)
  {
    if body != [] {
      var init, last := body[..|body| - 1], body[|body| - 1];
      BodyWords(st, init);
      WordsConcat(st, PrintAll(init), Print(last));
      StatementWords(AfterBody(st, init), last);
    }
  }

  lemma ClauseWords(st: SwitchState, c: Clause)
    requires ClauseNameless(c)
    ensures ReadWords(st, PrintClause(c)) == AfterClause(st, c)
  {
    var word := if c.isDefault then "default" else "case";
    var guard := if c.isDefault then [] else c.guard;
    var entered := st.ObserveWord(word);
    assert PrintClause(c) == [Word(word)] + (guard + [Code]) + PrintAll(c.body);
    WordsConcat(st, [Word(word)] + (guard + [Code]), PrintAll(c.body));
    WordsConcat(st, [Word(word)], guard + [Code]);
    WordsOne(st, Word(word));
    PlainWords(entered, guard + [Code]);
    BodyWords(entered, c.body);
  }

  lemma {:induction false} ClausesWords(st: SwitchState, clauses: seq<Clause>)
    requires ClausesNameless(clauses)
    ensures ReadWords(st, PrintClauses(clauses)) == AfterClauses(st, clauses)
  {
    if clauses != [] {
      var init, last := clauses[..|clauses| - 1], clauses[|clauses| - 1];
      ClausesWords(st, init);
      WordsConcat(st, PrintClauses(init), PrintClause(last));
      ClauseWords(AfterClauses(st, init), last);
    }
  }

  /** What the automaton has to say of the clauses of a switch, names and all. */
  predicate AcceptsClauses(clauses: seq<Clause>) {
    AcceptsWords(PrintClauses(clauses))
  }

  // ---- The switch automaton on statements.

  lemma {:induction false} SwitchConcat(st: SwitchState, a: seq<Piece>, b: seq<Piece>)
    ensures ReadSwitch(st, a + b) == ReadSwitch(ReadSwitch(st, a), b)
  {
    if b == [] {
      assert a + b == a;
    } else {
      assert (a + b)[..|a + b| - 1] == a + b[..|b| - 1];
      SwitchConcat(st, a, b[..|b| - 1]);
    }
  }

  lemma SwitchOne(st: SwitchState, p: Piece)
    ensures ReadSwitch(st, [p]) == SwitchStep(st, p)
  {
    assert [p][..0] == [];
  }

  predicate HasGroup(pieces: seq<Piece>) {
    exists i :: 0 <= i < |pieces| && pieces[i].Braces?
  }

  /** Between statements the automaton has seen no switch, or one that is closed. */
  predicate Apart(st: SwitchState) {
    st == NO_SWITCH || st.phase.Closed?
  }

  /** An absent switch stays absent, and a closed invalid one stays so, until the next one. */
  lemma {:induction false} ReadsSettled(st: SwitchState, pieces: seq<Piece>)
    requires st == NO_SWITCH || (st.phase.Closed? && st.invalid)
    requires !Shows(pieces, "switch")
    ensures ReadSwitch(st, pieces) == st
  {
    if pieces != [] {
      assert pieces[|pieces| - 1] in pieces;
      ReadsSettled(st, pieces[..|pieces| - 1]);
    }
  }

  /** Code outside any switch: an absent switch stays absent, a closed one becomes invalid. */
  lemma ReadsBeyond(st: SwitchState, pieces: seq<Piece>)
    requires Apart(st) && pieces != [] && !Idle(pieces[0]) && !Shows(pieces, "switch")
    ensures var after := ReadSwitch(st, pieces);
            if st == NO_SWITCH then after == NO_SWITCH else after.phase.Closed? && after.invalid
  {
    var first, rest := pieces[0], pieces[1..];
    assert pieces == [first] + rest && first in pieces && forall p :: p in rest ==> p in pieces;
    SwitchConcat(st, [first], rest);
    SwitchOne(st, first);
    ReadsSettled(SwitchStep(st, first), rest);
  }

  /** Groups in the subject are taken for the body: the automaton closes early. */
  lemma {:induction false} ReadsSubject(subject: seq<Piece>)
    requires !Shows(subject, "switch")
    ensures var after := ReadSwitch(SEEKING, subject); if HasGroup(subject) then after.phase.Closed? else after == SEEKING
  {
    if subject != [] {
      var init, last := subject[..|subject| - 1], subject[|subject| - 1];
      assert last in subject;
      ReadsSubject(init);
      if HasGroup(init) {
        var i :| 0 <= i < |init| && init[i].Braces?;
        assert subject[i].Braces?;
      }
      if HasGroup(subject) && !last.Braces? {
        var i :| 0 <= i < |subject| && subject[i].Braces?;
        assert init[i].Braces?;
      }
      if last.Braces? {
        ReadWordsStays(ENTERED, last.inner);
      }
    }
  }

  /** Behind the parenthesised subject the automaton seeks the body still, or has given up. */
  lemma SubjectRead(st: SwitchState, subject: seq<Piece>)
    requires !Shows(subject, "switch") && !st.phase.InBody?
    ensures var after := ReadSwitch(st, Head("switch", subject));
            if HasGroup(subject) then after.phase.Closed? && after.invalid else after == SEEKING
  {
    var start := [Word("switch"), Code];
    assert start == [Word("switch")] + [Code];
    SwitchConcat(st, [Word("switch")], [Code]);
    SwitchOne(st, Word("switch"));
    SwitchOne(SEEKING, Code);
    SwitchConcat(st, start, subject);
    ReadsSubject(subject);
    SwitchConcat(st, start + subject, [Code]);
    SwitchOne(ReadSwitch(SEEKING, subject), Code);
  }

  /** A switch statement leaves the automaton closed, and complete exactly if the subject holds no
      group and the words of the clauses are accepted. */
  lemma SwitchRead(st: SwitchState, subject: seq<Piece>, clauses: seq<Clause>)
    requires Apart(st) && !Shows(subject, "switch")
    ensures var after := ReadSwitch(st, Print(Switch(subject, clauses)));
            after.phase.Closed? && (after.Complete() <==> !HasGroup(subject) && AcceptsClauses(clauses))
  {
    hide Head, HasGroup;
    var group := Braces(PrintClauses(clauses));
    SubjectRead(st, subject);
    SwitchConcat(st, Head("switch", subject), [group]);
    SwitchOne(ReadSwitch(st, Head("switch", subject)), group);
    ReadWordsStays(ENTERED, PrintClauses(clauses));
  }

  /** The statement's last token closes an accepted switch. */
  predicate TailSwitch(s: Statement) {
    match s
    case Switch(subject, clauses) => !HasGroup(subject) && AcceptsClauses(clauses)
    case If(_, consequent) => TailSwitch(consequent)
    case IfElse(_, _, alternative) => TailSwitch(alternative)
    case Loop(_, repeated) => TailSwitch(repeated)
    case _ => false
  }

  predicate SwitchesAs(st: SwitchState, s: Statement, after: SwitchState) {
    && Apart(after)
    && if Shows(Print(s), "switch") then after.Complete() <==> TailSwitch(s)
       else (st == NO_SWITCH ==> after == NO_SWITCH) && (after.Complete() <==> st.Complete() && s.Empty?)
  }

  lemma HeadSwitches(st: SwitchState, word: string, test: seq<Piece>)
    requires Apart(st) && Plain(test) && word != "switch"
    ensures var after := ReadSwitch(st, Head(word, test)); Apart(after) && !after.Complete() && (st == NO_SWITCH ==> after == st)
  {
    ReadsBeyond(st, Head(word, test));
  }

  lemma OtherSwitches(st: SwitchState, s: Statement)
    requires Apart(st) && Nameless(s) && !s.If? && !s.IfElse? && !s.Loop? && !s.DoWhile? && !s.Switch?
    ensures SwitchesAs(st, s, ReadSwitch(st, Print(s)))
  {
    var pieces := Print(s);
    assert !Shows(pieces, "switch");
    if s.Empty? {
      SwitchOne(st, End);
    } else {
      ReadsBeyond(st, pieces);
    }
  }

  lemma PlainHead(word: string, test: seq<Piece>, reserved: string)
    requires Plain(test) && reserved in RESERVED && word != reserved
    ensures !Shows(Head(word, test), reserved)
  {
  }

  lemma ElseSwitches(st: SwitchState, test: seq<Piece>, consequent: Statement)
    requires Apart(st) && Plain(test)
    requires var begun := ReadSwitch(st, Head("if", test)); SwitchesAs(begun, consequent, ReadSwitch(begun, Print(consequent)))
    ensures var middle := ReadSwitch(st, Head("if", test) + Print(consequent) + [Word("else")]);
            && Apart(middle) && !middle.Complete()
            && (st == NO_SWITCH && !Shows(Print(consequent), "switch") ==> middle == NO_SWITCH)
  {
    hide TailSwitch, Head;
    var head, first := Head("if", test), Print(consequent);
    HeadSwitches(st, "if", test);
    SwitchConcat(st, head, first);
    SwitchConcat(st, head + first, [Word("else")]);
    SwitchOne(ReadSwitch(st, head + first), Word("else"));
  }

  lemma IfElseSwitches(st: SwitchState, s: Statement)
    requires Apart(st) && s.IfElse? && Nameless(s)
    requires var middle := ReadSwitch(st, Head("if", s.test) + Print(s.consequent) + [Word("else")]);
             && !middle.Complete() && (st == NO_SWITCH && !Shows(Print(s.consequent), "switch") ==> middle == NO_SWITCH)
             && SwitchesAs(middle, s.alternative, ReadSwitch(middle, Print(s.alternative)))
    ensures SwitchesAs(st, s, ReadSwitch(st, Print(s)))
  {
    hide ReadSwitch;
    var front := Head("if", s.test) + Print(s.consequent) + [Word("else")];
    assert Print(s) == front + Print(s.alternative);
    SwitchConcat(st, front, Print(s.alternative));
    PlainHead("if", s.test, "switch");
    TailSwitchShows(s.alternative);
  }

  lemma NestedSwitches(st: SwitchState, s: Statement, word: string, test: seq<Piece>, inner: Statement)
    requires Apart(st) && Plain(test) && word != "switch" && Print(s) == Head(word, test) + Print(inner)
    requires TailSwitch(s) == TailSwitch(inner) && !s.Empty? && Nameless(inner)
    requires var begun := ReadSwitch(st, Head(word, test)); SwitchesAs(begun, inner, ReadSwitch(begun, Print(inner)))
    ensures SwitchesAs(st, s, ReadSwitch(st, Print(s)))
  {
    hide TailSwitch, Head;
    HeadSwitches(st, word, test);
    SwitchConcat(st, Head(word, test), Print(inner));
    PlainHead(word, test, "switch");
    TailSwitchShows(inner);
  }

  lemma DoSwitches(st: SwitchState)
    requires Apart(st)
    ensures var begun := ReadSwitch(st, [Word("do")]); Apart(begun) && (st == NO_SWITCH ==> begun == NO_SWITCH)
  {
    SwitchOne(st, Word("do"));
  }

  lemma DoWhileSwitches(st: SwitchState, s: Statement)
    requires Apart(st) && s.DoWhile? && Nameless(s)
    requires var begun := ReadSwitch(st, [Word("do")]); SwitchesAs(begun, s.repeated, ReadSwitch(begun, Print(s.repeated)))
    ensures SwitchesAs(st, s, ReadSwitch(st, Print(s)))
  {
    DoSwitches(st);
    var first, last := [Word("do")] + Print(s.repeated), Head("while", s.test) + Terminator(s.ended);
    assert Print(s) == first + last;
    SwitchConcat(st, [Word("do")], Print(s.repeated));
    SwitchConcat(st, first, last);
    PlainHead("while", s.test, "switch");
    ReadsBeyond(ReadSwitch(st, first), last);
  }

  lemma SwitchReads(st: SwitchState, subject: seq<Piece>, clauses: seq<Clause>)
    requires Apart(st) && Plain(subject)
    ensures SwitchesAs(st, Switch(subject, clauses), ReadSwitch(st, Print(Switch(subject, clauses))))
  {
    SwitchRead(st, subject, clauses);
    assert Print(Switch(subject, clauses))[0] == Word("switch");
  }

  lemma {:induction false} StatementReadsSwitch(st: SwitchState, s: Statement)
    requires Apart(st) && Nameless(s)
    ensures SwitchesAs(st, s, ReadSwitch(st, Print(s)))
    decreases s
  {
    hide SwitchesAs, Apart;
    match s
    case Switch(subject, clauses) => SwitchReads(st, subject, clauses);
    case If(test, consequent) =>
      HeadSwitches(st, "if", test);
      StatementReadsSwitch(ReadSwitch(st, Head("if", test)), consequent);
      NestedSwitches(st, s, "if", test, consequent);
    case Loop(head, repeated) =>
      HeadSwitches(st, "while", head);
      StatementReadsSwitch(ReadSwitch(st, Head("while", head)), repeated);
      NestedSwitches(st, s, "while", head, repeated);
    case IfElse(test, consequent, alternative) =>
      HeadSwitches(st, "if", test);
      StatementReadsSwitch(ReadSwitch(st, Head("if", test)), consequent);
      ElseSwitches(st, test, consequent);
      StatementReadsSwitch(ReadSwitch(st, Head("if", test) + Print(consequent) + [Word("else")]), alternative);
      IfElseSwitches(st, s);
    case DoWhile(repeated, test, _) =>
      DoSwitches(st);
      StatementReadsSwitch(ReadSwitch(st, [Word("do")]), repeated);
      DoWhileSwitches(st, s);
    case _ => OtherSwitches(st, s);
  }

  predicate SwitchTail(body: seq<Statement>, k: nat) {
    k < |body| && TailSwitch(body[k]) && forall j :: k < j < |body| ==> body[j].Empty?
  }

  ghost predicate EndsInSwitch(body: seq<Statement>) {
    exists k: nat :: SwitchTail(body, k)
  }

  lemma {:induction false} TailSwitchShows(s: Statement)
    ensures TailSwitch(s) ==> Shows(Print(s), "switch")
  {
    match s
    case If(_, consequent) => TailSwitchShows(consequent);
    case IfElse(_, consequent, alternative) => TailSwitchShows(alternative);
    case Loop(_, repeated) => TailSwitchShows(repeated);
    case _ =>
  }

  lemma SwitchTailGrows(body: seq<Statement>)
    requires body != []
    ensures var init, last := body[..|body| - 1], body[|body| - 1];
            EndsInSwitch(body) <==> TailSwitch(last) || (last.Empty? && EndsInSwitch(init))
  {
    hide TailSwitch;
    var init, last := body[..|body| - 1], body[|body| - 1];
    if TailSwitch(last) {
      assert SwitchTail(body, |init|);
    }
    if last.Empty? && EndsInSwitch(init) {
      var k: nat :| SwitchTail(init, k);
      assert SwitchTail(body, k);
    }
    if k: nat :| SwitchTail(body, k) {
      assert k < |init| ==> SwitchTail(init, k);
    }
  }

  lemma {:induction false} BodyReadsSwitch(body: seq<Statement>)
    requires AllNameless(body)
    ensures var after := ReadSwitch(NO_SWITCH, PrintAll(body));
            Apart(after) && (after.Complete() <==> EndsInSwitch(body))
  {
    hide TailSwitch, EndsInSwitch, Print;
    if body == [] {
      NoTail();
    } else {
      var init, last := body[..|body| - 1], body[|body| - 1];
      BodyReadsSwitch(init);
      SwitchConcat(NO_SWITCH, PrintAll(init), Print(last));
      StatementReadsSwitch(ReadSwitch(NO_SWITCH, PrintAll(init)), last);
      TailSwitchShows(last);
      SwitchTailGrows(body);
      if last.Empty? {
        assert !Shows(Print(last), "switch") by { EmptyShows(); }
      }
    }
  }

  lemma EmptyShows()
    ensures !Shows(Print(Empty), "switch")
  {
  }

  /** Without names, a body is accepted exactly when a return decides or it ends in an accepted switch. */
  lemma NamelessAcceptsIff(body: seq<Statement>)
    requires AllNameless(body)
    ensures AcceptsPieces(PrintAll(body)) <==> (exists k: nat :: ReturnDecides(body, k)) || EndsInSwitch(body)
  {
    AcceptsReads(PrintAll(body));
    ReturnAcceptsIff(PrintAll(body));
    ReturnDecidesIff(body);
    BodyReadsSwitch(body);
  }

  /** With its semicolons too, exactly when it ends in a return or in an accepted switch. */
  lemma OrdinaryAcceptsIff(body: seq<Statement>)
    requires AllNameless(body) && AllEnded(body)
    ensures AcceptsPieces(PrintAll(body)) <==> EndsInReturn(body) || EndsInSwitch(body)
  {
    AcceptsReads(PrintAll(body));
    BodyReturns(body);
    BodyReadsReturn(body);
    BodyReadsSwitch(body);
  }

  // ---- What acceptance means for executions.

  /** Some clause can be left by a break. */
  predicate Breaks(clauses: seq<Clause>) {
    exists i :: 0 <= i < |clauses| && RunsAll(clauses[i].body, Broken)
  }

  lemma {:induction false} BrokenFromSome(clauses: seq<Clause>)
    ensures RunsFromSome(clauses, Broken) <==> Breaks(clauses)
  {
    if clauses != [] {
      var init, last := clauses[..|clauses| - 1], clauses[|clauses| - 1];
      BrokenFromSome(init);
      if Breaks(init) {
        var i :| 0 <= i < |init| && RunsAll(init[i].body, Broken);
        assert RunsAll(clauses[i].body, Broken);
      }
      if RunsAll(last.body, Broken) {
        assert clauses[|clauses| - 1] == last;
      }
      if Breaks(clauses) && !RunsAll(last.body, Broken) {
        var i :| 0 <= i < |clauses| && RunsAll(clauses[i].body, Broken);
        assert init[i] == clauses[i];
      }
    }
  }

  /** The last clause can be run through to its end. */
  predicate RunsOut(clauses: seq<Clause>) {
    clauses != [] && RunsAll(clauses[|clauses| - 1].body, Normal)
  }

  /** An accepted switch without names completes normally exactly when a break leaves one of its
      clauses or the last one can be run through. */
  lemma SwitchNormalIff(subject: seq<Piece>, clauses: seq<Clause>)
    requires AcceptsClauses(clauses) && ClausesNameless(clauses)
    ensures HasDefault(clauses)
    ensures Runs(Switch(subject, clauses), Normal) <==> Breaks(clauses) || RunsOut(clauses)
  {
    ClausesWords(ENTERED, clauses);
    DefaultSeen(clauses);
    BrokenFromSome(clauses);
  }

  lemma {:induction false} DefaultSeen(clauses: seq<Clause>)
    ensures AfterClauses(ENTERED, clauses).hasDefault ==> HasDefault(clauses)
  {
    if clauses != [] {
      var init, last := clauses[..|clauses| - 1], clauses[|clauses| - 1];
      DefaultSeen(init);
      AfterBodyDefault(AfterClauses(ENTERED, init).ObserveWord(if last.isDefault then "default" else "case"), last.body);
      if HasDefault(init) {
        var k :| 0 <= k < |init| && init[k].isDefault;
        assert clauses[k].isDefault;
      }
    }
  }

  lemma {:induction false} AfterStatementDefault(st: SwitchState, s: Statement)
    ensures AfterStatement(st, s).hasDefault == st.hasDefault
    ensures AfterStatement(st, s).phase == st.phase && (st.invalid ==> AfterStatement(st, s).invalid)
    decreases s
  {
    match s
    case If(_, consequent) => AfterStatementDefault(st, consequent);
    case IfElse(_, consequent, alternative) =>
      AfterStatementDefault(st, consequent);
      AfterStatementDefault(AfterStatement(st, consequent), alternative);
    case Loop(_, repeated) => AfterStatementDefault(st, repeated);
    case DoWhile(repeated, _, _) => AfterStatementDefault(st, repeated);
    case _ =>
  }

  lemma {:induction false} AfterBodyDefault(st: SwitchState, body: seq<Statement>)
    ensures AfterBody(st, body).hasDefault == st.hasDefault
    ensures AfterBody(st, body).phase == st.phase && (st.invalid ==> AfterBody(st, body).invalid)
  {
    if body != [] {
      AfterBodyDefault(st, body[..|body| - 1]);
      AfterStatementDefault(AfterBody(st, body[..|body| - 1]), body[|body| - 1]);
    }
  }

  lemma {:induction false} RunsSplit(body: seq<Statement>, k: nat)
    requires k < |body|
    ensures RunsAll(body, Normal) <==> RunsAll(body[..k], Normal) && Runs(body[k], Normal) && RunsAll(body[k + 1..], Normal)
    decreases |body|
  {
    var init, last := body[..|body| - 1], body[|body| - 1];
    if k == |init| {
      assert body[k + 1..] == [] && body[..k] == init;
    } else {
      RunsSplit(init, k);
      assert init[..k] == body[..k];
      assert body[k + 1..][..|body[k + 1..]| - 1] == init[k + 1..];
    }
  }

  // ---- Every body.

  /** The last word `return` stands in this statement. */
  ghost predicate WordDecides(body: seq<Statement>, k: nat) {
    && k < |body| && Shows(Print(body[k]), "return") && EndsInReturnWord(PrintAll(body))
    && forall j :: k < j < |body| ==> !Shows(Print(body[j]), "return")
  }

  /** The group that is taken for the body of a switch stands in this statement. */
  ghost predicate GroupDecides(body: seq<Statement>, k: nat) {
    && k < |body| && HasGroup(Print(body[k])) && EndsInSwitchWord(PrintAll(body))
    && forall j :: k < j < |body| ==> body[j].Empty?
  }

  lemma {:induction false} LastShowing(body: seq<Statement>, word: string) returns (k: nat)
    requires Shows(PrintAll(body), word)
    ensures k < |body| && Shows(Print(body[k]), word) && forall j :: k < j < |body| ==> !Shows(Print(body[j]), word)
  {
    hide Print;
    var n := |body| - 1;
    if Shows(Print(body[n]), word) {
      k := n;
    } else {
      k := LastShowing(body[..n], word);
    }
  }

  lemma IdleIsEmpty(s: Statement)
    requires forall j :: 0 <= j < |Print(s)| ==> Idle(Print(s)[j])
    ensures s.Empty?
  {
    assert Idle(Print(s)[0]);
  }

  /** A group with nothing but semicolons behind it stands in the last statement that is not empty. */
  lemma {:induction false} GroupIn(body: seq<Statement>, q: nat) returns (k: nat)
    requires q < |PrintAll(body)| && PrintAll(body)[q].Braces? && forall j :: q < j < |PrintAll(body)| ==> Idle(PrintAll(body)[j])
    ensures k < |body| && HasGroup(Print(body[k])) && forall j :: k < j < |body| ==> body[j].Empty?
  {
    hide Print;
    var n := |body| - 1;
    var before, last := PrintAll(body[..n]), Print(body[n]);
    if q >= |before| {
      k := n;
      assert last[q - |before|].Braces?;
    } else {
      assert forall j :: 0 <= j < |before| ==> before[j] == PrintAll(body)[j];
      forall j | 0 <= j < |last| ensures Idle(last[j]) {
        assert PrintAll(body)[|before| + j] == last[j];
      }
      IdleIsEmpty(body[n]);
      k := GroupIn(body[..n], q);
    }
  }

  /** Every accepted body, names and all, has a statement that decides. */
  lemma AcceptedDecides(body: seq<Statement>)
    requires AcceptsPieces(PrintAll(body))
    ensures exists k: nat :: WordDecides(body, k) || GroupDecides(body, k)
  {
    var pieces := PrintAll(body);
    AcceptsIff(pieces);
    if p: nat :| ReturnLast(pieces, p) {
      var k := LastShowing(body, "return");
      assert WordDecides(body, k);
    } else {
      var p: nat, q: nat :| SwitchLast(pieces, p, q);
      var k := GroupIn(body, q);
      assert GroupDecides(body, k);
    }
  }

  // ---- Bodies without names.

  /** The statement taken for the body's end. */
  ghost predicate Decides(body: seq<Statement>, k: nat) {
    ReturnDecides(body, k) || SwitchTail(body, k)
  }

  /** Whether such a statement can be passed. A return cannot; a branch without an `else` and a loop
      can; one of two branches can if either can, and a `do` if its body can or is left; an accepted
      switch can if a break leaves it or its last clause can be run through. */
  predicate Slips(s: Statement)
    decreases s, 0
  {
    match s
    case If(_, _) => true
    case IfElse(_, consequent, alternative) => SlipsOrRuns(consequent) || SlipsOrRuns(alternative)
    case Loop(_, _) => true
    case DoWhile(repeated, _, _) => SlipsOrRuns(repeated) || Runs(repeated, Broken) || Runs(repeated, Continued)
    case Switch(_, clauses) => Breaks(clauses) || RunsOut(clauses)
    case _ => false
  }

  predicate Ends(s: Statement) {
    HoldsReturn(s) || TailSwitch(s)
  }

  predicate SlipsOrRuns(s: Statement)
    decreases s, 1
  {
    if Ends(s) then Slips(s) else Runs(s, Normal)
  }

  /** The statement slips, and the others can be passed. */
  predicate SlipsAt(body: seq<Statement>, k: nat)
    requires k < |body|
  {
    Slips(body[k]) && RunsAll(body[..k], Normal) && RunsAll(body[k + 1..], Normal)
  }

  lemma {:induction false} SlipsIff(s: Statement)
    requires Nameless(s) && Ends(s)
    ensures Runs(s, Normal) <==> Slips(s)
    decreases s
  {
    match s
    case IfElse(_, consequent, alternative) =>
      if Ends(consequent) {
        SlipsIff(consequent);
      }
      if Ends(alternative) {
        SlipsIff(alternative);
      }
    case DoWhile(repeated, _, _) =>
      if Ends(repeated) {
        SlipsIff(repeated);
      }
    case Switch(subject, clauses) => SwitchNormalIff(subject, clauses);
    case _ =>
  }

  /** Return completeness, exactly, for bodies without names, wherever they leave out semicolons: an
      accepted body has a statement that decides, and falls off its end if and only if that statement
      slips and the others can be passed. */
  lemma NamelessFallsOffIff(body: seq<Statement>)
    requires AllNameless(body) && AcceptsPieces(PrintAll(body))
    ensures exists k: nat :: Decides(body, k)
    ensures RunsAll(body, Normal) <==> exists k: nat :: Decides(body, k) && SlipsAt(body, k)
  {
    NamelessAcceptsIff(body);
    var k: nat;
    if EndsInSwitch(body) {
      k :| SwitchTail(body, k);
    } else {
      k :| ReturnDecides(body, k);
    }
    assert Decides(body, k);
    SlipDecides(body, k);
    if l: nat :| Decides(body, l) && SlipsAt(body, l) {
      SlipDecides(body, l);
    }
  }

  lemma SlipDecides(body: seq<Statement>, k: nat)
    requires AllNameless(body) && k < |body| && Ends(body[k])
    ensures RunsAll(body, Normal) <==> SlipsAt(body, k)
  {
    RunsSplit(body, k);
    SlipsIff(body[k]);
  }

  /** With its semicolons too, the statement that decides shows the last token of the body, so only
      blocks and empty statements follow it. */
  predicate Tail(body: seq<Statement>, k: nat) {
    ReturnTail(body, k) || SwitchTail(body, k)
  }

  lemma OrdinaryFallsOffIff(body: seq<Statement>)
    requires AllNameless(body) && AllEnded(body) && AcceptsPieces(PrintAll(body))
    ensures exists k: nat :: Tail(body, k)
    ensures RunsAll(body, Normal) <==> exists k: nat :: Tail(body, k) && SlipsAt(body, k)
  {
    OrdinaryAcceptsIff(body);
    var k: nat;
    if EndsInReturn(body) {
      k :| ReturnTail(body, k);
    } else {
      k :| SwitchTail(body, k);
    }
    assert Tail(body, k);
    TailHolds(body[k]);
    SlipDecides(body, k);
    if l: nat :| Tail(body, l) && SlipsAt(body, l) {
      TailHolds(body[l]);
      SlipDecides(body, l);
    }
  }

  // ---- Braced branches.

  /** Branches and loop bodies are blocks, or another `if` behind an `else`. */
  predicate BracedBranches(s: Statement) {
    match s
    case If(_, consequent) => consequent.Block?
    case IfElse(_, consequent, alternative) =>
      consequent.Block? && (alternative.Block? || ((alternative.If? || alternative.IfElse?) && BracedBranches(alternative)))
    case Loop(_, repeated) => repeated.Block?
    case DoWhile(repeated, _, _) => repeated.Block?
    case _ => true
  }

  predicate AllBraced(body: seq<Statement>) {
    forall k :: 0 <= k < |body| ==> BracedBranches(body[k])
  }

  /** A statement with braced branches holds a return or ends in a switch only if it is one. */
  lemma {:induction false} BracedEnds(s: Statement)
    requires BracedBranches(s)
    ensures HoldsReturn(s) ==> s.Return?
    ensures TailSwitch(s) ==> s.Switch?
  {
    match s
    case If(_, consequent) => assert !HoldsReturn(consequent) && !TailSwitch(consequent);
    case Loop(_, repeated) => assert !HoldsReturn(repeated) && !TailSwitch(repeated);
    case DoWhile(repeated, _, _) => assert !HoldsReturn(repeated);
    case IfElse(_, consequent, alternative) =>
      assert !HoldsReturn(consequent);
      if alternative.Block? {
        assert !HoldsReturn(alternative) && !TailSwitch(alternative);
      } else {
        BracedEnds(alternative);
      }
    case _ =>
  }

  lemma {:induction false} BracedWord(st: SwitchState, s: Statement)
    requires BracedBranches(s)
    ensures AfterStatement(st, s) == st.ObserveWord(StatementWord(s))
  {
    if s.IfElse? && !s.alternative.Block? {
      BracedWord(st, s.alternative);
    }
  }

  predicate Stops(s: Statement) {
    s.Return? || s.Throw?
  }

  predicate HasStop(body: seq<Statement>) {
    exists k :: 0 <= k < |body| && Stops(body[k])
  }

  /** A sequence with a return or throw of its own is never left normally. */
  lemma {:induction false} StopEnds(body: seq<Statement>)
    requires HasStop(body)
    ensures !RunsAll(body, Normal)
  {
    var init, last := body[..|body| - 1], body[|body| - 1];
    if !Stops(last) {
      var k :| 0 <= k < |body| && Stops(body[k]);
      assert init[k] == body[k];
      StopEnds(init);
    }
  }

  /** In a body that stays valid and is not pending at its end, every direct break stands behind
      a direct return or throw. */
  lemma {:induction false} BodyAccepted(st: SwitchState, body: seq<Statement>)
    requires AllBraced(body) && st.phase.InBody? && st.pending && !AfterBody(st, body).invalid
    ensures !st.invalid && (AfterBody(st, body).pending <==> !HasStop(body)) && BreaksDead(body)
  {
    if body != [] {
      var init, last := body[..|body| - 1], body[|body| - 1];
      BracedWord(AfterBody(st, init), last);
      AfterStatementDefault(AfterBody(st, init), last);
      BodyAccepted(st, init);
      if HasStop(init) {
        var k :| 0 <= k < |init| && Stops(init[k]);
        assert Stops(body[k]);
      }
      forall k | 0 <= k < |body| && body[k].Break? ensures HasStop(body[..k]) {
        if k < |init| {
          assert init[k].Break? && body[..k] == init[..k];
        } else {
          assert body[..k] == init;
        }
      }
      if HasStop(body) && !Stops(last) {
        var k :| 0 <= k < |body| && Stops(body[k]);
        assert Stops(init[k]);
      }
    }
  }

  predicate BreaksDead(body: seq<Statement>) {
    forall k :: 0 <= k < |body| && body[k].Break? ==> HasStop(body[..k])
  }

  predicate ClausesBraced(clauses: seq<Clause>) {
    forall i :: 0 <= i < |clauses| ==> AllBraced(clauses[i].body)
  }

  /** Every direct break of accepted clauses is dead code, and the last clause stops. */
  lemma {:induction false} ClausesAccepted(clauses: seq<Clause>)
    requires ClausesBraced(clauses) && !AfterClauses(ENTERED, clauses).invalid
    ensures AfterClauses(ENTERED, clauses).phase.InBody?
    ensures !AfterClauses(ENTERED, clauses).pending && clauses != [] ==> HasStop(clauses[|clauses| - 1].body)
    ensures forall i :: 0 <= i < |clauses| ==> BreaksDead(clauses[i].body)
  {
    if clauses != [] {
      var init, last := clauses[..|clauses| - 1], clauses[|clauses| - 1];
      var entered := AfterClauses(ENTERED, init).ObserveWord(if last.isDefault then "default" else "case");
      AfterBodyDefault(entered, last.body);
      assert forall i :: 0 <= i < |init| ==> init[i] == clauses[i];
      ClausesAccepted(init);
      assert AllBraced(clauses[|clauses| - 1].body);
      BodyAccepted(entered, last.body);
    }
  }

  /** With braced branches and without names, an accepted switch completes normally exactly when a
      clause can be left by a break. */
  lemma BracedSwitchNormalIff(subject: seq<Piece>, clauses: seq<Clause>)
    requires AcceptsClauses(clauses) && ClausesBraced(clauses) && ClausesNameless(clauses)
    ensures Runs(Switch(subject, clauses), Normal) <==> Breaks(clauses)
  {
    SwitchNormalIff(subject, clauses);
    ClausesWords(ENTERED, clauses);
    ClausesAccepted(clauses);
    if clauses != [] {
      StopEnds(clauses[|clauses| - 1].body);
    }
  }

  /** A break in the statement that would leave the switch around it. */
  predicate BreaksOut(s: Statement)
    decreases s, 0
  {
    match s
    case Break(_) => true
    case Block(body) => SomeBreaksOut(body)
    case If(_, consequent) => BreaksOut(consequent)
    case IfElse(_, consequent, alternative) => BreaksOut(consequent) || BreaksOut(alternative)
    case TryCatch(body, _, handler) => SomeBreaksOut(body) || SomeBreaksOut(handler)
    case TryFinally(body, finalizer) => SomeBreaksOut(body) || SomeBreaksOut(finalizer)
    case Try(body, _, handler, finalizer) => SomeBreaksOut(body) || SomeBreaksOut(handler) || SomeBreaksOut(finalizer)
    case _ => false
  }

  predicate SomeBreaksOut(body: seq<Statement>)
    decreases body, 1
  {
    exists k :: 0 <= k < |body| && BreaksOut(body[k])
  }

  lemma {:induction false} BrokenBreaksOut(s: Statement)
    requires Runs(s, Broken)
    ensures BreaksOut(s)
    decreases s, 0
  {
    match s
    case Block(body) => BrokenAllBreaksOut(body);
    case If(_, consequent) => BrokenBreaksOut(consequent);
    case IfElse(_, consequent, alternative) =>
      if Runs(consequent, Broken) { BrokenBreaksOut(consequent); } else { BrokenBreaksOut(alternative); }
    case TryCatch(body, _, handler) =>
      if RunsAll(body, Broken) { BrokenAllBreaksOut(body); } else { BrokenAllBreaksOut(handler); }
    case TryFinally(body, finalizer) =>
      if RunsAll(body, Broken) { BrokenAllBreaksOut(body); } else { BrokenAllBreaksOut(finalizer); }
    case Try(body, _, handler, finalizer) =>
      if RunsAll(finalizer, Broken) {
        BrokenAllBreaksOut(finalizer);
      } else if RunsAll(body, Broken) {
        BrokenAllBreaksOut(body);
      } else {
        BrokenAllBreaksOut(handler);
      }
    case _ =>
  }

  lemma {:induction false} BrokenAllBreaksOut(body: seq<Statement>)
    requires RunsAll(body, Broken)
    ensures SomeBreaksOut(body)
    decreases body, 1
  {
    var init, last := body[..|body| - 1], body[|body| - 1];
    if RunsAll(init, Broken) {
      BrokenAllBreaksOut(init);
      var k :| 0 <= k < |init| && BreaksOut(init[k]);
      assert BreaksOut(body[k]);
    } else {
      BrokenBreaksOut(last);
    }
  }

  /** No statement of a switch clause holds, in braces of its own, a break that leaves the switch. */
  predicate NoNestedBreak(body: seq<Statement>) {
    forall k :: 0 <= k < |body| && body[k].Switch? ==> ClausesUnbroken(body[k].clauses)
  }

  predicate ClausesUnbroken(clauses: seq<Clause>) {
    forall i, j :: 0 <= i < |clauses| && 0 <= j < |clauses[i].body| && !clauses[i].body[j].Break? ==>
      !BreaksOut(clauses[i].body[j])
  }

  lemma {:induction false} DeadBreaksStay(body: seq<Statement>)
    requires BreaksDead(body) && forall j :: 0 <= j < |body| && !body[j].Break? ==> !BreaksOut(body[j])
    ensures !RunsAll(body, Broken)
  {
    if body != [] {
      var init, last := body[..|body| - 1], body[|body| - 1];
      forall k | 0 <= k < |init| && init[k].Break? ensures HasStop(init[..k]) {
        assert body[k].Break? && init[..k] == body[..k];
      }
      DeadBreaksStay(init);
      if last.Break? {
        assert body[..|body| - 1] == init;
        StopEnds(init);
      } else if Runs(last, Broken) {
        BrokenBreaksOut(last);
      }
    }
  }

  /** Return completeness: an accepted body without names whose branches are braced, and whose
      switches hold braced branches and no nested break that leaves them, never falls off its end. */
  lemma AcceptedNeverFallsOff(body: seq<Statement>)
    requires AllNameless(body) && AllBraced(body) && NoNestedBreak(body) && AcceptsPieces(PrintAll(body))
    requires forall k :: 0 <= k < |body| && body[k].Switch? ==> ClausesBraced(body[k].clauses)
    ensures !RunsAll(body, Normal)
  {
    NamelessFallsOffIff(body);
    if k: nat :| Decides(body, k) && SlipsAt(body, k) {
      BracedEnds(body[k]);
      if body[k].Switch? {
        var clauses := body[k].clauses;
        BracedSwitchNormalIff(body[k].subject, clauses);
        SlipsIff(body[k]);
        ClausesWords(ENTERED, clauses);
        ClausesAccepted(clauses);
        var i :| 0 <= i < |clauses| && RunsAll(clauses[i].body, Broken);
        DeadBreaksStay(clauses[i].body);
      }
    }
  }

  // ---- Why the conditions are there.

  /** A word `return` outside groups, whatever precedes it, is enough where no code follows a
      semicolon behind it. */
  lemma ReturnWordAccepts(before: seq<Piece>, after: seq<Piece>, ended: bool)
    requires !HasEnd(after)
    ensures AcceptsPieces(before + [Word("return")] + after + Terminator(ended))
  {
    var pieces := before + [Word("return")] + after + Terminator(ended);
    var p := |before|;
    forall i | p < i <= p + |after| ensures !pieces[i].End? {
      assert pieces[i] == after[i - p - 1];
    }
    assert ReturnLast(pieces, p);
    AcceptsIff(pieces);
  }

  /** A last `if` whose return has no braces of its own is taken for the body's own return: every
      such body is accepted, and falls off its end exactly when what precedes it can be passed. */
  lemma UnbracedFamily(before: seq<Statement>, test: seq<Piece>, value: seq<Piece>, ended: bool)
    requires !HasEnd(value)
    ensures AcceptsPieces(PrintAll(before + [If(test, Return(value, ended))]))
    ensures RunsAll(before + [If(test, Return(value, ended))], Normal) <==> RunsAll(before, Normal)
  {
    var last := If(test, Return(value, ended));
    var body := before + [last];
    assert body[..|body| - 1] == before;
    assert PrintAll(body) == PrintAll(before) + Print(last);
    assert Print(last) == Head("if", test) + ([Word("return")] + value + Terminator(ended));
    assert PrintAll(body) == (PrintAll(before) + Head("if", test)) + [Word("return")] + value + Terminator(ended);
    ReturnWordAccepts(PrintAll(before) + Head("if", test), value, ended);
  }

  lemma {:induction false} PrintConcat(a: seq<Statement>, b: seq<Statement>)
    ensures PrintAll(a + b) == PrintAll(a) + PrintAll(b)
  {
    hide Print;
    if b == [] {
      assert a + b == a && PrintAll(b) == [];
    } else {
      assert (a + b)[..|a + b| - 1] == a + b[..|b| - 1];
      PrintConcat(a, b[..|b| - 1]);
    }
  }

  lemma NoEndConcat(a: seq<Piece>, b: seq<Piece>)
    requires !HasEnd(a) && !HasEnd(b)
    ensures !HasEnd(a + b)
  {
    forall i | 0 <= i < |a + b| ensures !(a + b)[i].End? {
      assert (a + b)[i] == if i < |a| then a[i] else b[i - |a|];
    }
  }

  lemma GuardSplits(front: seq<Piece>, test: seq<Piece>, value: seq<Piece>, rest: seq<Piece>)
    ensures front + Print(If(test, Return(value, false))) + rest
         == (front + Head("if", test)) + [Word("return")] + (value + rest) + Terminator(false)
  {
    assert Print(If(test, Return(value, false))) == Head("if", test) + ([Word("return")] + value);
  }

  /** Where semicolons are left out, an unbraced return may have any code behind it: every such body
      is accepted, and falls off its end exactly when the rest can be passed. */
  lemma NoSemicolonFamily(before: seq<Statement>, test: seq<Piece>, value: seq<Piece>, rest: seq<Statement>)
    requires !HasEnd(value) && !HasEnd(PrintAll(rest))
    ensures AcceptsPieces(PrintAll(before + [If(test, Return(value, false))] + rest))
    ensures RunsAll(before + [If(test, Return(value, false))] + rest, Normal) <==> RunsAll(before, Normal) && RunsAll(rest, Normal)
  {
    hide Print, PrintAll, AcceptsPieces, HasEnd;
    var guard := If(test, Return(value, false));
    var body := before + [guard] + rest;
    PrintConcat(before + [guard], rest);
    PrintConcat(before, [guard]);
    PrintAlone(guard);
    GuardSplits(PrintAll(before), test, value, PrintAll(rest));
    NoEndConcat(value, PrintAll(rest));
    ReturnWordAccepts(PrintAll(before) + Head("if", test), value + PrintAll(rest), false);
    RunsSplit(body, |before|);
    assert body[..|before|] == before && body[|before| + 1..] == rest && body[|before|] == guard;
  }

  lemma PrintAlone(s: Statement)
    ensures PrintAll([s]) == Print(s)
  {
    assert [s][..0] == [];
  }

  /** A last expression that names a property `return` is taken for a return statement, whatever
      precedes it. */
  lemma NamedReturnFamily(before: seq<Statement>, front: seq<Piece>, back: seq<Piece>, ended: bool)
    requires !HasEnd(back)
    ensures AcceptsPieces(PrintAll(before + [Expression(front + [Word("return")] + back, ended)]))
    ensures RunsAll(before + [Expression(front + [Word("return")] + back, ended)], Normal) <==> RunsAll(before, Normal)
  {
    var value := front + [Word("return")] + back;
    var body := before + [Expression(value, ended)];
    assert body[..|body| - 1] == before;
    assert PrintAll(body) == PrintAll(before) + Print(Expression(value, ended));
    assert PrintAll(body) == (PrintAll(before) + ([Code] + front)) + [Word("return")] + back + Terminator(ended);
    ReturnWordAccepts(PrintAll(before) + ([Code] + front), back, ended);
  }

  /** A last switch without a default clause is accepted exactly when the words of its clauses are,
      so that a property named `default` must stand in them; it is passed when no clause matches. */
  lemma NamedDefaultFamily(before: seq<Statement>, subject: seq<Piece>, clauses: seq<Clause>)
    requires !Shows(subject, "switch") && !HasGroup(subject) && !HasDefault(clauses) && AcceptsClauses(clauses)
    ensures AcceptsPieces(PrintAll(before + [Switch(subject, clauses)]))
    ensures RunsAll(before + [Switch(subject, clauses)], Normal) <==> RunsAll(before, Normal)
    ensures !ClausesNameless(clauses)
  {
    var last := Switch(subject, clauses);
    var body := before + [last];
    assert body[..|body| - 1] == before;
    var pieces, p := PrintAll(body), |PrintAll(before)|;
    var q := p + |Head("switch", subject)|;
    assert pieces == PrintAll(before) + Print(last);
    assert pieces == PrintAll(before) + Head("switch", subject) + [Braces(PrintClauses(clauses))];
    forall j | p < j < q ensures !pieces[j].Braces? && pieces[j] != Word("switch") {
      var h := Head("switch", subject);
      assert pieces[j] == h[j - p];
      assert 2 <= j - p < 2 + |subject| ==> h[j - p] == subject[j - p - 2] && subject[j - p - 2] in subject;
    }
    assert SwitchLast(pieces, p, q);
    AcceptsIff(pieces);
    if ClausesNameless(clauses) {
      SwitchNormalIff(subject, clauses);
    }
  }

  /** `{ it.return(); }` is accepted. */
  lemma NamedReturnWitness()
    ensures var body := [Expression([Code, Word("return"), Code], true)];
            AcceptsPieces(PrintAll(body)) && RunsAll(body, Normal) && AllBraced(body) && NoNestedBreak(body)
  {
    var e := [Code, Word("return"), Code];
    assert [Code] + [Word("return")] + [Code] == e && [] + [Expression(e, true)] == [Expression(e, true)];
    NamedReturnFamily([], [Code], [Code], true);
  }

  lemma DefaultWords(clause: Clause)
    requires clause == Clause(false, [Code], [Expression([Code, Word("default")], true), Return([Code], true)])
    ensures PrintClauses([clause]) == [Word("case"), Code, Code, Code, Code, Word("default"), End, Word("return"), Code, End]
  {
    var statements := clause.body;
    var e, r := statements[0], statements[1];
    assert statements[..1] == [e] && [e][..0] == [] && [clause][..0] == [];
    assert Print(e) == [Code, Code, Word("default"), End] && Print(r) == [Word("return"), Code, End];
    assert PrintAll([e]) == Print(e) && PrintAll(statements) == Print(e) + Print(r);
    assert PrintClause(clause) == [Word("case"), Code, Code] + PrintAll(statements);
    assert PrintClauses([clause]) == PrintClauses([]) + PrintClause(clause);
  }

  /** `{ switch (t) { case 'a': const c = m.default; return c; } }` is accepted as having a default. */
  lemma NamedDefaultWitness(clause: Clause)
    requires clause == Clause(false, [Code], [Expression([Code, Word("default")], true), Return([Code], true)])
    ensures var body := [Switch([Code], [clause])];
            AcceptsPieces(PrintAll(body)) && RunsAll(body, Normal) && AllBraced(body) && NoNestedBreak(body)
  {
    hide PrintClauses, AcceptsPieces;
    var words := PrintClauses([clause]);
    DefaultWords(clause);
    assert StoppedAt(words, 0, 7) && StoppedAt(words, 5, 7) && words[5] == Word("default");
    WordsAcceptedIff(words);
    assert [] + [Switch([Code], [clause])] == [Switch([Code], [clause])];
    NamedDefaultFamily([], [Code], [clause]);
  }

  /** A break inside the braces of an `if` leaves the switch, unseen by the automaton. */
  lemma NestedBreakWitness(first: Clause, second: Clause)
    requires first == Clause(false, [Code], [If([Code], Block([Break(true)])), Return([Code], true)])
    requires second == Clause(true, [], [Return([Code], true)])
    ensures AcceptsClauses([first, second]) && Nameless(Switch([Code], [first, second]))
    ensures Runs(Switch([Code], [first, second]), Normal)
  {
    hide ReadWords, RunsAll, AfterClause;
    var clauses := [first, second];
    assert clauses[..1] == [first] && [first][..0] == [];
    FirstBreaks(first);
    assert Breaks(clauses) by { assert RunsAll(clauses[0].body, Broken); }
    FirstAccepted(first);
    SecondAccepted(AfterClause(ENTERED, first), second);
    assert AfterClauses(ENTERED, [first]) == AfterClause(ENTERED, first);
    assert AfterClauses(ENTERED, clauses) == AfterClause(AfterClause(ENTERED, first), second);
    assert ClauseNameless(first) && ClauseNameless(second);
    ClausesWords(ENTERED, clauses);
    SwitchNormalIff([Code], clauses);
  }

  lemma FirstBreaks(first: Clause)
    requires first == Clause(false, [Code], [If([Code], Block([Break(true)])), Return([Code], true)])
    ensures RunsAll(first.body, Broken)
  {
    var nested, body: seq<Statement> := [Break(true)], first.body;
    assert nested[..0] == [] && RunsAll(nested, Broken);
    assert body[..1] == [body[0]] && [body[0]][..0] == [];
    assert Runs(body[0], Broken) && RunsAll([body[0]], Broken);
  }

  lemma FirstAccepted(first: Clause)
    requires first == Clause(false, [Code], [If([Code], Block([Break(true)])), Return([Code], true)])
    ensures AfterClause(ENTERED, first) == ENTERED.(hasEntry := true)
  {
    var st, body := ENTERED.ObserveWord("case"), first.body;
    assert body[..1] == [body[0]] && [body[0]][..0] == [];
    assert AfterBody(st, [body[0]]) == st;
  }

  lemma SecondAccepted(st: SwitchState, second: Clause)
    requires second == Clause(true, [], [Return([Code], true)])
    ensures AfterClause(st, second) == st.(hasEntry := true, hasDefault := true, pending := false)
  {
    var entered, body := st.ObserveWord("default"), second.body;
    assert |body| == 1 && body[..|body| - 1] == [];
    assert AfterBody(entered, body) == AfterBody(entered, []).ObserveWord(StatementWord(body[0]));
  }

  /** A last clause that ends in an unbraced `if` with a return can be run through. */
  lemma LastClauseWitness(clause: Clause)
    requires clause == Clause(true, [], [If([Code], Return([Code], true))])
    ensures AcceptsClauses([clause]) && Nameless(Switch([Code], [clause]))
    ensures Runs(Switch([Code], [clause]), Normal)
  {
    var clauses, body := [clause], clause.body;
    assert clauses[..|clauses| - 1] == [] && body[..|body| - 1] == [];
    var entered := ENTERED.ObserveWord("default");
    assert AfterBody(entered, body) == AfterStatement(AfterBody(entered, []), body[0]);
    assert AfterClauses(ENTERED, clauses) == AfterClause(AfterClauses(ENTERED, []), clause);
    assert ClauseNameless(clause);
    ClausesWords(ENTERED, clauses);
    SwitchNormalIff([Code], clauses);
  }
}
