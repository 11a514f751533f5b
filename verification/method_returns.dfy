/** Methods with a block and arrow functions without one, against their executions
    (internal/admin/value_type.go:393-445 and 523-538). */
module MethodReturns {
  import opened TextScan
  import opened ReturnFlow
  import opened TokenPieces
  import opened StatementFlow

  /** A method with a body, an arrow function that returns an expression, or a mere declaration. */
  datatype Method =
    | BlockMethod(body: seq<Statement>)
    | ArrowMethod(parameters: string, result: string)
    | Declared(text: string)

  function BodyOf(m: Method): MethodBody {
    match m
    case BlockMethod(body) => WithBlock(Braced(Tokens(PrintAll(body))))
    case ArrowMethod(parameters, result) => NoBlock(true, parameters + "=>" + result)
    case Declared(text) => NoBlock(false, text)
  }

  /** How a call can complete. An arrow function without a block returns the value of its expression
      unless evaluating it throws (section 15.3.5 of ECMA-262); nothing is known of a declaration. */
  predicate Completes(m: Method, c: Completion) {
    match m
    case BlockMethod(body) => RunsAll(body, c)
    case ArrowMethod(_, _) => c == Returned || c == Thrown
    case Declared(_) => true
  }

  /** The syntax of an expression body: it is not empty and does not start with a brace. */
  predicate ExpressionBody(result: string) {
    Trim(result) != "" && Trim(result)[0] != '{'
  }

  ghost predicate HasArrow(text: string) {
    exists i :: ArrowAt(text, i)
  }

  predicate ArrowAt(text: string, i: int) {
    0 <= i < |text| - 1 && text[i] == '=' && text[i + 1] == '>'
  }

  /** The first arrow of the text has a body that starts with a brace, or none. */
  ghost predicate BraceFirst(text: string) {
    exists i :: FirstArrow(text, i) && !ExpressionBody(text[i + 2..])
  }

  ghost predicate FirstArrow(text: string, i: int) {
    ArrowAt(text, i) && forall k :: 0 <= k < i ==> !ArrowAt(text, k)
  }

  lemma StartsIff(text: string)
    ensures "=>" <= text <==> ArrowAt(text, 0)
  {
    if ArrowAt(text, 0) {
      assert text[..2] == "=>";
    }
  }

  lemma {:induction false} BehindIs(text: string) returns (i: int)
    ensures BehindArrow(text).None? ==> !HasArrow(text)
    ensures BehindArrow(text).Some? ==> FirstArrow(text, i) && BehindArrow(text).value == text[i + 2..]
  {
    StartsIff(text);
    if text == "" {
      i := -1;
    } else if "=>" <= text {
      i := 0;
      assert text[0] == "=>"[0] && text[1] == "=>"[1];
    } else {
      var j := BehindIs(text[1..]);
      i := j + 1;
      forall k | ArrowAt(text, k) ensures k > 0 && ArrowAt(text[1..], k - 1) {
      }
      if BehindArrow(text).Some? {
        assert text[1..][j] == text[i] && text[1..][j + 1] == text[i + 1];
        assert text[1..][j + 2..] == text[i + 2..];
      }
    }
  }

  /** An arrow function with an expression body is taken to return always, exactly if no default of
      its parameters is an arrow function whose body starts with a brace before any other arrow. */
  lemma ArrowAcceptedIff(parameters: string, result: string)
    requires ExpressionBody(result)
    ensures AlwaysReturns(BodyOf(ArrowMethod(parameters, result))) <==> !BraceFirst(parameters + "=>" + result)
    ensures !HasArrow(parameters) ==> AlwaysReturns(BodyOf(ArrowMethod(parameters, result)))
  {
    var text := parameters + "=>" + result;
    var i := BehindIs(text);
    var n := |parameters|;
    assert text[n] == "=>"[0] && text[n + 1] == "=>"[1] && ArrowAt(text, n);
    assert text[n + 2..] == result;
    forall k | 0 <= k < n && ArrowAt(text, k) ensures ArrowAt(parameters, k) {
    }
  }

  /** The bodies whose acceptance is earned: braced branches and no nested break that leaves. */
  predicate Plainly(m: Method) {
    m.BlockMethod? ==>
      && AllNameless(m.body) && AllBraced(m.body) && NoNestedBreak(m.body)
      && forall k :: 0 <= k < |m.body| && m.body[k].Switch? ==> ClausesBraced(m.body[k].clauses)
  }

  /** No call of an accepted method completes without returning or throwing. */
  lemma AcceptedMethodReturns(m: Method)
    requires AlwaysReturns(BodyOf(m)) && Plainly(m)
    ensures !Completes(m, Normal)
  {
    if m.BlockMethod? {
      AcceptedNeverFallsOff(m.body);
    }
  }
}
