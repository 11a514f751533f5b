/** What the selector analysis reads in the source text of an expression: its core without
    parentheses, and exactly the form the expression has. */
module SelectorReading {
  import opened AdminModel
  import opened CallableType
  import opened TextScan
  import opened StaticChain
  import opened SelectorText
  import opened SelectorSyntax

  // ---- The two scanners agree on parentheses.

  predicate Mirrors(m: MatchScan, st: SlotScan, offset: int) {
    m.quoted == st.quoted && m.quote == st.quote && m.escaped == st.escaped && m.depth == st.parens + offset
  }

  lemma MirrorStep(m: MatchScan, st: SlotScan, offset: int, c: char)
    requires Mirrors(m, st, offset)
    ensures Mirrors(m.Consume(c, '(', ')'), st.Consume(c), offset)
  {
  }

  lemma {:induction false} InsideMirrors(x: string, k: nat, m: MatchScan)
    requires Contained(x) && k <= |x| && Mirrors(m, NEUTRAL_SLOT.ConsumeAll(x[..k]), 1)
    ensures var end := Inside(x[k..], '(', ')', m); end.Some? && Mirrors(end.value, NEUTRAL_SLOT, 1)
    decreases |x| - k
  {
    if k == |x| {
      assert x[..k] == x;
    } else {
      var c := x[k];
      MirrorStep(m, NEUTRAL_SLOT.ConsumeAll(x[..k]), 1, c);
      PrefixStep(x, k + 1);
      assert NEUTRAL_SLOT.ConsumeAll(x[..k + 1]).parens >= 0;
      assert x[k..][1..] == x[k + 1..];
      InsideMirrors(x, k + 1, m.Consume(c, '(', ')'));
    }
  }

  lemma ContainedEnclosed(x: string)
    requires Contained(x)
    ensures Enclosed(x, '(', ')')
  {
    assert x[..0] == "" && x[0..] == x;
    InsideMirrors(x, 0, ENTERED);
  }

  lemma {:induction false} ClosesWithin(u: string, tail: string, k: nat, m: MatchScan)
    requires NEUTRAL_SLOT.ConsumeAll(u) == NEUTRAL_SLOT && k <= |u|
    requires Mirrors(m, NEUTRAL_SLOT.ConsumeAll(u[..k]), 0) && m.depth >= 1
    ensures 0 <= MatchFrom(u[k..] + tail, '(', ')', m) < |u| - k
    decreases |u| - k
  {
    assert u[..|u|] == u;
    if k < |u| {
      var c := u[k];
      var text := u[k..] + tail;
      MirrorStep(m, NEUTRAL_SLOT.ConsumeAll(u[..k]), 0, c);
      PrefixStep(u, k + 1);
      assert text[0] == c && text[1..] == u[k + 1..] + tail;
      if m.quoted || IsQuote(c) || c != ')' || m.depth > 1 {
        ClosesWithin(u, tail, k + 1, m.Consume(c, '(', ')'));
      }
    }
  }

  /** A contained text that starts with a parenthesis closes it itself. */
  lemma ContainedCloses(u: string, tail: string)
    requires Contained(u) && u != "" && u[0] == '(' && tail != ""
    ensures !Parenthesised(u + tail)
  {
    var text := u + tail;
    assert text[0..] == text && text[0] == '(' && text[1..] == u[1..] + tail;
    PrefixStep(u, 1);
    assert u[..0] == "";
    ClosesWithin(u, tail, 1, NEUTRAL_MATCH.Consume('(', '(', ')'));
  }

  lemma {:induction false} StaysQuoted(st: SlotScan, t: string)
    requires st.quoted && st.quote !in t
    ensures st.ConsumeAll(t).quoted && st.ConsumeAll(t).quote == st.quote
  {
    if t != "" {
      StaysQuoted(st, t[..|t| - 1]);
      assert t[|t| - 1] in t;
    }
  }

  /** A contained text that starts with a quote has that quote again. */
  lemma ContainedQuotes(u: string)
    requires Contained(u) && u != "" && IsQuote(u[0])
    ensures u[0] in u[1..]
  {
    if u[0] !in u[1..] {
      var st := NEUTRAL_SLOT.Consume(u[0]);
      assert u == [u[0]] + u[1..] && [u[0]][..0] == "";
      ConsumeAllConcat(NEUTRAL_SLOT, [u[0]], u[1..]);
      assert NEUTRAL_SLOT.ConsumeAll([u[0]]) == st;
      StaysQuoted(st, u[1..]);
    }
  }

  lemma ComposedIsNoString(u: string, tail: string)
    requires Contained(u) && u != "" && tail != ""
    ensures StaticString(u + tail).None?
  {
    var t := u + tail;
    if IsQuote(t[0]) {
      ContainedQuotes(u);
      var k :| 0 <= k < |u[1..]| && u[1..][k] == u[0];
      assert t[1..|t| - 1][k] == u[k + 1];
      assert u[0] in t[1..|t| - 1];
    }
  }

  // ---- Composite expressions.

  function Leftmost(e: Expr): Expr {
    match e
    case Coalesce(left, _) => left
    case Either(left, _) => left
    case Conditional(test, _, _) => Leftmost(test)
    case _ => e
  }

  lemma {:induction false} LeftmostLeads(e: Expr) returns (tail: string)
    requires WellFormed(e)
    ensures WellFormed(Leftmost(e)) && Unit(Leftmost(e)) && Print(e) == Print(Leftmost(e)) + tail
    ensures !Unit(e) ==> tail != ""
  {
    match e
    case Coalesce(_, right) => tail := " ?? " + Print(right);
    case Either(_, right) => tail := " || " + Print(right);
    case Conditional(test, whenTrue, whenFalse) =>
      var inner := LeftmostLeads(test);
      var rest := " ? " + (Print(whenTrue) + (" : " + Print(whenFalse)));
      tail := inner + rest;
      Reassociate(Print(Leftmost(test)), inner, rest);
    case _ =>
      tail := "";
      assert Print(e) + "" == Print(e);
  }

  /** A composite expression starts like an expression but is neither a string nor parenthesised. */
  lemma CompositeIsNeither(e: Expr)
    requires WellFormed(e) && !Unit(e)
    ensures !Parenthesised(Print(e)) && StaticString(Print(e)).None? && ' ' in Print(e)
  {
    var tail := LeftmostLeads(e);
    var u := Print(Leftmost(e));
    PrintContained(Leftmost(e));
    PrintNonEmpty(Leftmost(e));
    ComposedIsNoString(u, tail);
    if u[0] == '(' {
      ContainedCloses(u, tail);
    } else {
      assert (u + tail)[0] == u[0];
    }
    HasSpace(e);
  }

  lemma HasSpace(e: Expr)
    requires !Unit(e)
    ensures ' ' in Print(e)
  {
    match e
    case Coalesce(left, right) => assert Print(e)[|Print(left)|] == ' ';
    case Either(left, right) => assert Print(e)[|Print(left)|] == ' ';
    case Conditional(test, _, _) => assert Print(e)[|Print(test)|] == ' ';
  }

  // ---- The core.

  function CoreOf(e: Expr): Expr {
    if e.Group? then CoreOf(e.inner) else e
  }

  lemma GroupParenthesised(x: string)
    requires Contained(x)
    ensures Parenthesised("(" + x + ")") && ("(" + x + ")")[1..|x| + 1] == x
  {
    ContainedEnclosed(x);
    MatchingIffEnclosed(x, "", '(', ')');
    assert "(" + x + ")" + "" == "(" + x + ")";
  }

  lemma UnitNotParenthesised(e: Expr)
    requires WellFormed(e) && Unit(e) && !e.Group?
    ensures !Parenthesised(Print(e))
  {
    match e
    case Reference(name, _, _) =>
      assert Print(e)[0] == 't' || Print(e)[0] == name[0];
    case _ =>
  }

  lemma {:induction false} UnwrapPrint(e: Expr)
    requires WellFormed(e)
    ensures Unwrap(Print(e)) == Print(CoreOf(e)) && WellFormed(CoreOf(e)) && !CoreOf(e).Group?
  {
    PrintEndsWell(e);
    TrimmedFixed(Print(e));
    if e.Group? {
      PrintContained(e.inner);
      GroupParenthesised(Print(e.inner));
      UnwrapPrint(e.inner);
    } else if Unit(e) {
      UnitNotParenthesised(e);
    } else {
      CompositeIsNeither(e);
    }
  }

  /** Surrounding white space and parentheses do not matter. */
  lemma CorePrint(left: string, e: Expr, right: string)
    requires WellFormed(e) && AllSpace(left) && AllSpace(right)
    ensures Core(left + Print(e) + right) == Print(CoreOf(e)) && WellFormed(CoreOf(e)) && !CoreOf(e).Group?
  {
    PrintEndsWell(e);
    TrimSourceOf(left, Print(e), right);
    UnwrapPrint(e);
  }

  // ---- Strings, constants and references.

  lemma StringReads(e: Expr)
    requires WellFormed(e) && !e.Group?
    ensures StaticString(Print(e)) == if e.Text? && e.value != "" then Some(e.value) else None
  {
    if !Unit(e) {
      CompositeIsNeither(e);
    } else if e.Text? {
      var t := Print(e);
      assert t[1..|t| - 1] == e.value;
    } else if e.Reference? {
      assert Print(e)[0] == 't' || Print(e)[0] == e.name[0];
    }
  }

  lemma ConstantReads(e: Expr)
    requires WellFormed(e) && !e.Group?
    ensures (Print(e) == "null" || Print(e) == "undefined" || Print(e) == "false") <==> e.Constantly?
  {
    var t := Print(e);
    if !Unit(e) {
      HasSpace(e);
    } else if e.Text? {
      assert t[0] == e.quote;
    } else if e.Reference? {
      if e.form.qualified {
        assert t[4] == '.';
      } else if e.arguments.Some? {
        assert t[|t| - 1] == ')';
      } else if e.form.asserted {
        assert t[|t| - 1] == '!';
      } else {
        assert t == e.name;
      }
    }
  }

  /** What the scan makes of a printed reference. */
  function ReadSegment(name: string, arguments: Option<string>, form: Form): Segment {
    Segment(name, arguments.Some?, arguments.Some? && form.chained, false, if arguments.Some? then arguments.value else "", "")
  }

  lemma DottedAlone(name: string, arguments: Option<string>, form: Form)
    requires IsIdentifier(name) && (arguments.Some? ==> Contained(arguments.value))
    ensures ReadChain("." + (name + CallText(arguments, form)), false) == Parsed([ReadSegment(name, arguments, form)], "")
  {
    var call := if arguments.Some? then Some(Invocation(arguments.value, form.chained)) else None;
    var step := Dotted(name, false, form.asserted, call);
    if arguments.Some? {
      ContainedEnclosed(arguments.value);
    }
    assert Printable(step);
    MemberReads(name, false, form.asserted, call, "", false);
    assert (if form.asserted then "!" else "") + InvocationText(call) == CallText(arguments, form);
    assert StepText(step) + "" == "." + (name + CallText(arguments, form));
    assert [StepSegment(step)] + [] == [StepSegment(step)];
  }

  lemma ThisChain(called: string, segment: Segment)
    requires EndsWell("this." + called) && ReadChain("." + called, false) == Parsed([segment], "")
    ensures ThisExpression("this." + called) == Some([segment])
  {
    var t := "this." + called;
    TrimmedFixed(t);
    assert "this" <= t && t[4] == '.' && t[4..] == "." + called;
  }

  lemma ThisReads(name: string, arguments: Option<string>, form: Form)
    requires IsIdentifier(name) && (arguments.Some? ==> Contained(arguments.value))
    ensures ThisExpression("this." + (name + CallText(arguments, form))) == Some([ReadSegment(name, arguments, form)])
  {
    DottedAlone(name, arguments, form);
    ReferenceEndsWell(name, arguments, form.(qualified := true));
    ThisChain(name + CallText(arguments, form), ReadSegment(name, arguments, form));
  }

  lemma UnqualifiedStart(name: string, arguments: Option<string>, form: Form)
    requires IsIdentifier(name)
    ensures !("this." <= name + CallText(arguments, form)) && (name + CallText(arguments, form))[0] == name[0]
  {
    var call := CallText(arguments, form);
    var t := name + call;
    if |name| > 4 {
      assert t[4] == name[4];
    } else if call != "" {
      assert call[0] == '!' || call[0] == '?' || call[0] == '(';
      assert t[|name|] == call[0] && "this."[|name|] != call[0];
    }
  }

  lemma ReferenceStripped(t: string)
    requires Trimmed(t) && t != "" && Searched(t, "??") && !Parenthesised(t)
    ensures TemplateExpression(t)
         == if "this." <= t then ThisExpression(t) else if !IdentifierStart(t[0]) then None else ThisExpression("this." + t)
  {
    TrimmedFixed(t);
    NoOperatorFound(t, "??");
  }

  /** A reference is read as the single member it names, called or not, asserted or not. */
  lemma ReferenceReads(name: string, arguments: Option<string>, form: Form)
    requires WellFormed(Reference(name, arguments, form))
    ensures var read := SingleReference(Print(Reference(name, arguments, form)));
            read.Some? && read.value.name == name && read.value.called == arguments.Some?
  {
    var e := Reference(name, arguments, form);
    var t := Print(e);
    PrintEndsWell(e);
    UnitSearched(e, "??");
    UnitNotParenthesised(e);
    ReferenceStripped(t);
    ThisReads(name, arguments, form);
    if form.qualified {
      assert "this." <= t;
    } else {
      UnqualifiedStart(name, arguments, form);
      assert t == name + CallText(arguments, form);
    }
  }

  lemma OtherReferences(e: Expr)
    requires WellFormed(e) && Unit(e) && !e.Group? && !e.Reference? && !e.Spelled? && !e.Constantly?
    ensures SingleReference(Print(e)).None?
  {
    if e.Text? {
      PrintEndsWell(e);
      UnitSearched(e, "??");
      UnitNotParenthesised(e);
      ReferenceStripped(Print(e));
      assert Print(e)[0] == e.quote;
    }
  }

  // ---- Operators.

  lemma CoalesceReads(left: Expr, right: Expr)
    requires WellFormed(Coalesce(left, right))
    ensures SplitOperator(Print(Coalesce(left, right)), "??") == Some((Print(left), Print(right)))
  {
    UnitSearched(left, "??");
    PrintEndsWell(left);
    PrintEndsWell(right);
    OperatorSplits(Print(left), "??", Print(right));
    assert " " + "??" + " " == " ?? ";
  }

  lemma EitherReads(left: Expr, right: Expr)
    requires WellFormed(Either(left, right))
    ensures SplitOperator(Print(Either(left, right)), "??").None?
    ensures SplitOperator(Print(Either(left, right)), "||") == Some((Print(left), Print(right)))
  {
    EitherPrintSearched(Either(left, right));
    NoOperatorFound(Print(Either(left, right)), "??");
    UnitSearched(left, "||");
    PrintEndsWell(left);
    PrintEndsWell(right);
    OperatorSplits(Print(left), "||", Print(right));
    assert " " + "||" + " " == " || ";
  }

  lemma UnitReads(e: Expr)
    requires WellFormed(e) && Unit(e)
    ensures SplitOperator(Print(e), "??").None? && SplitOperator(Print(e), "||").None?
  {
    UnitSearched(e, "??");
    UnitSearched(e, "||");
    NoOperatorFound(Print(e), "??");
    NoOperatorFound(Print(e), "||");
  }
}
