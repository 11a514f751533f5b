/** The expressions a dynamic selector is written in, with the precedence of sections 13.13 and
    13.14 of ECMA-262, their source text, and what the scanners of SelectorText make of it. */
module SelectorSyntax {
  import opened AdminModel
  import opened CallableType
  import opened TextScan
  import opened StaticChain
  import opened SelectorText

  // ---- Text the scanners pass over.

  /** Every literal and delimiter opened is closed, and no parenthesis is closed unopened. */
  ghost predicate Contained(t: string) {
    && NEUTRAL_SLOT.ConsumeAll(t) == NEUTRAL_SLOT
    && forall k :: 0 <= k <= |t| ==> NEUTRAL_SLOT.ConsumeAll(t[..k]).parens >= 0
  }

  /** Position k is no colon, no `||`, and no question mark but that of `?.`. */
  predicate Quiet(t: string, k: nat)
    requires k < |t|
  {
    && t[k] != ':'
    && (t[k] == '?' ==> k + 1 < |t| && t[k + 1] == '.')
    && (t[k] == '|' ==> k + 1 == |t| || t[k + 1] != '|')
  }

  /** Contained text with nothing to split at outside its own delimiters. */
  ghost predicate Inert(t: string) {
    Contained(t) && forall k :: 0 <= k < |t| && NEUTRAL_SLOT.ConsumeAll(t[..k]).TopLevel() ==> Quiet(t, k)
  }

  predicate Delimiter(c: char) {
    IsQuote(c) || c == '(' || c == ')' || c == '[' || c == ']' || c == '{' || c == '}'
  }

  lemma {:induction false} PlainContained(t: string)
    requires forall i :: 0 <= i < |t| ==> !Delimiter(t[i])
    ensures Contained(t)
  {
    if t != "" {
      var init := t[..|t| - 1];
      PlainContained(init);
      forall k | 0 <= k <= |t| ensures NEUTRAL_SLOT.ConsumeAll(t[..k]).parens >= 0 {
        if k < |t| {
          assert t[..k] == init[..k];
        } else {
          assert t[..k] == t;
        }
      }
    }
  }

  lemma PlainInert(t: string)
    requires forall i :: 0 <= i < |t| ==> !Delimiter(t[i]) && t[i] != '?' && t[i] != ':' && t[i] != '|'
    ensures Inert(t)
  {
    PlainContained(t);
  }

  lemma ContainedConcat(a: string, b: string)
    requires Contained(a) && Contained(b)
    ensures Contained(a + b)
  {
    ConsumeAllConcat(NEUTRAL_SLOT, a, b);
    forall k | 0 <= k <= |a + b| ensures NEUTRAL_SLOT.ConsumeAll((a + b)[..k]).parens >= 0 {
      if k <= |a| {
        assert (a + b)[..k] == a[..k];
      } else {
        assert (a + b)[..k] == a + b[..k - |a|];
        ConsumeAllConcat(NEUTRAL_SLOT, a, b[..k - |a|]);
      }
    }
  }

  lemma InertConcat(a: string, b: string)
    requires Inert(a) && Inert(b) && (a != "" ==> a[|a| - 1] != '|')
    ensures Inert(a + b)
  {
    ContainedConcat(a, b);
    forall k | 0 <= k < |a + b| && NEUTRAL_SLOT.ConsumeAll((a + b)[..k]).TopLevel() ensures Quiet(a + b, k) {
      if k < |a| {
        assert (a + b)[..k] == a[..k];
        assert Quiet(a, k);
      } else {
        assert (a + b)[..k] == a + b[..k - |a|];
        ConsumeAllConcat(NEUTRAL_SLOT, a, b[..k - |a|]);
        assert Quiet(b, k - |a|);
      }
    }
  }

  lemma {:induction false} Lifted(st: SlotScan, t: string)
    ensures st.(parens := st.parens + 1).ConsumeAll(t) == st.ConsumeAll(t).(parens := st.ConsumeAll(t).parens + 1)
  {
    if t != "" {
      Lifted(st, t[..|t| - 1]);
    }
  }

  /** Inside parentheses nothing is at top level. */
  lemma GroupPrefix(x: string, k: nat)
    requires Contained(x) && 1 <= k <= |x| + 1
    ensures var st := NEUTRAL_SLOT.ConsumeAll(("(" + x + ")")[..k]);
            st == NEUTRAL_SLOT.ConsumeAll(x[..k - 1]).(parens := NEUTRAL_SLOT.ConsumeAll(x[..k - 1]).parens + 1)
            && st.parens >= 1
  {
    assert ("(" + x + ")")[..k] == "(" + x[..k - 1];
    ConsumeAllConcat(NEUTRAL_SLOT, "(", x[..k - 1]);
    assert "("[..0] == "" && NEUTRAL_SLOT.ConsumeAll("(") == NEUTRAL_SLOT.(parens := 1);
    Lifted(NEUTRAL_SLOT, x[..k - 1]);
  }

  lemma GroupInert(x: string)
    requires Contained(x)
    ensures Inert("(" + x + ")")
  {
    var t := "(" + x + ")";
    GroupPrefix(x, |x| + 1);
    assert x[..|x|] == x && t[..|t| - 1] == t[..|x| + 1];
    assert NEUTRAL_SLOT.ConsumeAll(t) == NEUTRAL_SLOT;
    forall k | 0 <= k <= |t|
      ensures NEUTRAL_SLOT.ConsumeAll(t[..k]).parens >= 0
      ensures k < |t| && NEUTRAL_SLOT.ConsumeAll(t[..k]).TopLevel() ==> Quiet(t, k)
    {
      if 1 <= k <= |x| + 1 {
        GroupPrefix(x, k);
      } else if k > |x| + 1 {
        assert t[..k] == t;
      }
    }
  }

  lemma {:induction false} QuotedPrefix(quote: char, value: string)
    requires IsQuote(quote) && '\\' !in value && quote !in value
    ensures NEUTRAL_SLOT.ConsumeAll([quote] + value) == NEUTRAL_SLOT.(quoted := true, quote := quote)
  {
    if value == "" {
      assert [quote] + value == [quote] && [quote][..0] == "";
    } else {
      var init := value[..|value| - 1];
      assert ([quote] + value)[..|value|] == [quote] + init;
      assert value[|value| - 1] in value;
      QuotedPrefix(quote, init);
    }
  }

  lemma QuotedInert(quote: char, value: string)
    requires IsQuote(quote) && '\\' !in value && quote !in value
    ensures Inert([quote] + value + [quote])
  {
    var t := [quote] + value + [quote];
    QuotedPrefix(quote, value);
    assert t[..|t| - 1] == [quote] + value;
    assert NEUTRAL_SLOT.ConsumeAll(t) == NEUTRAL_SLOT;
    forall k | 0 <= k <= |t|
      ensures NEUTRAL_SLOT.ConsumeAll(t[..k]).parens >= 0
      ensures k < |t| && NEUTRAL_SLOT.ConsumeAll(t[..k]).TopLevel() ==> Quiet(t, k)
    {
      if 1 <= k <= |value| + 1 {
        assert t[..k] == [quote] + value[..k - 1];
        QuotedPrefix(quote, value[..k - 1]);
      } else if k > |value| + 1 {
        assert t[..k] == t;
      }
    }
  }

  // ---- Expressions.

  datatype Constant = NullConstant | UndefinedConstant | FalseConstant

  /** How a reference is written: qualified with `this.`, with a non-null assertion behind its name,
      and with an optional call. */
  datatype Form = Form(qualified: bool, asserted: bool, chained: bool)

  const BARE := Form(false, false, false)
  const OF_THIS := Form(true, false, false)

  /** `Spelled` stands for every other spelling of a reference, with white space in it, and `Opaque`
      for everything the analysis does not look into. */
  datatype Expr =
    | Text(quote: char, value: string)
    | Constantly(constant: Constant)
    | Reference(name: string, arguments: Option<string>, form: Form)
    | Spelled(source: string, name: string, arguments: Option<string>, qualified: bool)
    | Opaque(source: string)
    | Group(inner: Expr)
    | Coalesce(left: Expr, right: Expr)
    | Either(left: Expr, right: Expr)
    | Conditional(test: Expr, whenTrue: Expr, whenFalse: Expr)

  function ConstantText(c: Constant): string {
    match c
    case NullConstant => "null"
    case UndefinedConstant => "undefined"
    case FalseConstant => "false"
  }

  function CallText(arguments: Option<string>, form: Form): string {
    (if form.asserted then "!" else "")
    + if arguments.Some? then (if form.chained then "?." else "") + ("(" + arguments.value + ")") else ""
  }

  function Print(e: Expr): string {
    match e
    case Text(quote, value) => [quote] + value + [quote]
    case Constantly(c) => ConstantText(c)
    case Reference(name, arguments, form) => (if form.qualified then "this." else "") + (name + CallText(arguments, form))
    case Spelled(source, _, _, _) => source
    case Opaque(source) => source
    case Group(inner) => "(" + Print(inner) + ")"
    case Coalesce(left, right) => Print(left) + (" ?? " + Print(right))
    case Either(left, right) => Print(left) + (" || " + Print(right))
    case Conditional(test, whenTrue, whenFalse) =>
      Print(test) + (" ? " + (Print(whenTrue) + (" : " + Print(whenFalse))))
  }

  predicate Unit(e: Expr) {
    !e.Coalesce? && !e.Either? && !e.Conditional?
  }

  /** A text the analysis can only treat as a whole. */
  ghost predicate WholeText(t: string) {
    && t != "" && Trimmed(t) && t[|t| - 1] != ',' && t[|t| - 1] != ';'
    && Inert(t) && !Parenthesised(t)
    && StaticString(t).None? && t != "null" && t != "undefined" && t != "false"
  }

  predicate Refers(segment: Segment, name: string, arguments: Option<string>) {
    segment.name == name && arguments == if segment.called then Some(segment.arguments) else None
  }

  /** The operands of `??` and `||` are units or longer chains of the same operator, the test
      of a conditional is no conditional, and branches are arbitrary. */
  ghost predicate WellFormed(e: Expr) {
    match e
    case Text(quote, value) => IsQuote(quote) && '\\' !in value && quote !in value && (quote == '`' ==> !Interpolates(value))
    case Constantly(_) => true
    case Reference(name, arguments, form) =>
      && IsIdentifier(name)
      && (arguments.Some? ==> Contained(arguments.value))
      && (!form.qualified && !form.asserted && arguments.None? ==> name != "null" && name != "undefined" && name != "false")
    case Spelled(source, name, arguments, qualified) =>
      && WholeText(source) && SingleReference(source).Some? && Refers(SingleReference(source).value, name, arguments)
      && qualified == ("this." <= source)
    case Opaque(source) => WholeText(source) && SingleReference(source).None?
    case Group(inner) => WellFormed(inner)
    case Coalesce(left, right) => WellFormed(left) && WellFormed(right) && Unit(left) && (Unit(right) || right.Coalesce?)
    case Either(left, right) => WellFormed(left) && WellFormed(right) && Unit(left) && (Unit(right) || right.Either?)
    case Conditional(test, whenTrue, whenFalse) =>
      WellFormed(test) && WellFormed(whenTrue) && WellFormed(whenFalse) && !test.Conditional?
  }

  lemma IdentifierInert(name: string)
    requires IsIdentifier(name)
    ensures Inert(name)
  {
    PlainInert(name);
  }

  lemma OptionalInert()
    ensures Inert("?.")
  {
    PlainContained("?.");
    assert Quiet("?.", 0) && Quiet("?.", 1);
  }

  lemma CallInert(arguments: Option<string>, form: Form)
    requires arguments.Some? ==> Contained(arguments.value)
    ensures Inert(CallText(arguments, form))
  {
    var mark := if form.asserted then "!" else "";
    PlainInert(mark);
    PlainInert("");
    if arguments.Some? {
      var link, group := if form.chained then "?." else "", "(" + arguments.value + ")";
      GroupInert(arguments.value);
      OptionalInert();
      InertConcat(link, group);
      InertConcat(mark, link + group);
    } else {
      InertConcat(mark, "");
    }
  }

  lemma ReferenceInert(name: string, arguments: Option<string>, form: Form)
    requires IsIdentifier(name) && (arguments.Some? ==> Contained(arguments.value))
    ensures Inert(Print(Reference(name, arguments, form)))
  {
    hide Inert;
    IdentifierInert(name);
    CallInert(arguments, form);
    InertConcat(name, CallText(arguments, form));
    var called := name + CallText(arguments, form);
    if form.qualified {
      PlainInert("this.");
      InertConcat("this.", called);
    } else {
      assert "" + called == called;
    }
  }

  lemma ConstantInert(c: Constant)
    ensures Inert(ConstantText(c))
  {
    PlainInert(ConstantText(c));
  }

  lemma JoinContained(left: string, between: string, right: string)
    requires Contained(left) && Contained(right) && forall i :: 0 <= i < |between| ==> !Delimiter(between[i])
    ensures Contained(left + (between + right))
  {
    PlainContained(between);
    ContainedConcat(between, right);
    ContainedConcat(left, between + right);
  }

  lemma {:induction false} PrintContained(e: Expr)
    requires WellFormed(e)
    ensures Contained(Print(e)) && (Unit(e) ==> Inert(Print(e)))
  {
    match e
    case Text(quote, value) => QuotedInert(quote, value);
    case Constantly(c) => ConstantInert(c);
    case Reference(name, arguments, form) => ReferenceInert(name, arguments, form);
    case Spelled(source, _, _, _) =>
    case Opaque(source) =>
    case Group(inner) =>
      PrintContained(inner);
      GroupInert(Print(inner));
    case Coalesce(left, right) =>
      PrintContained(left);
      PrintContained(right);
      JoinContained(Print(left), " ?? ", Print(right));
    case Either(left, right) =>
      PrintContained(left);
      PrintContained(right);
      JoinContained(Print(left), " || ", Print(right));
    case Conditional(test, whenTrue, whenFalse) =>
      PrintContained(test);
      PrintContained(whenTrue);
      PrintContained(whenFalse);
      JoinContained(Print(whenTrue), " : ", Print(whenFalse));
      JoinContained(Print(test), " ? ", Print(whenTrue) + (" : " + Print(whenFalse)));
  }

  // ---- Scanning a printed expression.

  /** `part` is what the text holds from position i on. */
  predicate Holds(value: string, i: nat, part: string) {
    i + |part| <= |value| && value[i..i + |part|] == part
  }

  lemma HoldsParts(value: string, i: nat, a: string, b: string)
    requires Holds(value, i, a + b)
    ensures Holds(value, i, a) && Holds(value, i + |a|, b)
  {
    assert (a + b)[..|a|] == a && (a + b)[|a|..] == b;
    assert value[i..i + |a|] == value[i..i + |a + b|][..|a|];
    assert value[i + |a|..i + |a| + |b|] == value[i..i + |a + b|][|a|..];
  }

  lemma PrefixStep(u: string, k: nat)
    requires 0 < k <= |u|
    ensures NEUTRAL_SLOT.ConsumeAll(u[..k]) == NEUTRAL_SLOT.ConsumeAll(u[..k - 1]).Consume(u[k - 1])
  {
    assert u[..k][..k - 1] == u[..k - 1];
  }

  /** The conditional scan reads an inert part without noticing anything. */
  lemma {:induction false} SplitSkips(value: string, i: nat, u: string, k: nat, question: int, nested: nat)
    requires Holds(value, i, u) && Inert(u) && k <= |u|
    requires -1 <= question < i || (i == 0 && question == -1)
    ensures SplitFrom(value, i, NEUTRAL_SLOT, question, nested)
         == SplitFrom(value, i + k, NEUTRAL_SLOT.ConsumeAll(u[..k]), question, nested)
  {
    hide Contained;
    if k > 0 {
      SplitSkips(value, i, u, k - 1, question, nested);
      PrefixStep(u, k);
      var p := i + k - 1;
      assert value[p] == value[i..i + |u|][k - 1];
      if NEUTRAL_SLOT.ConsumeAll(u[..k - 1]).TopLevel() {
        assert Quiet(u, k - 1);
        if u[k - 1] == '?' {
          assert value[p + 1] == value[i..i + |u|][k];
        }
      }
    }
  }

  lemma SplitSkipsAll(value: string, i: nat, u: string, question: int, nested: nat)
    requires Holds(value, i, u) && Inert(u)
    requires -1 <= question < i || (i == 0 && question == -1)
    ensures SplitFrom(value, i, NEUTRAL_SLOT, question, nested) == SplitFrom(value, i + |u|, NEUTRAL_SLOT, question, nested)
  {
    SplitSkips(value, i, u, |u|, question, nested);
    assert u[..|u|] == u;
  }

  lemma HoldsAt(value: string, i: nat, part: string, k: nat)
    requires Holds(value, i, part) && k < |part|
    ensures value[i + k] == part[k]
  {
    assert value[i..i + |part|][k] == part[k];
  }

  lemma SplitSkipsCoalesce(value: string, i: nat, question: int, nested: nat)
    requires Holds(value, i, " ?? ") && -1 <= question < i
    ensures SplitFrom(value, i, NEUTRAL_SLOT, question, nested) == SplitFrom(value, i + 4, NEUTRAL_SLOT, question, nested)
  {
    HoldsAt(value, i, " ?? ", 0);
    HoldsAt(value, i, " ?? ", 1);
    HoldsAt(value, i, " ?? ", 2);
    HoldsAt(value, i, " ?? ", 3);
    assert SplitFrom(value, i, NEUTRAL_SLOT, question, nested) == SplitFrom(value, i + 1, NEUTRAL_SLOT, question, nested);
    assert OperatorQuestion(value, i + 1) && OperatorQuestion(value, i + 2);
    assert SplitFrom(value, i + 1, NEUTRAL_SLOT, question, nested) == SplitFrom(value, i + 2, NEUTRAL_SLOT, question, nested);
    assert SplitFrom(value, i + 2, NEUTRAL_SLOT, question, nested) == SplitFrom(value, i + 3, NEUTRAL_SLOT, question, nested);
  }

  lemma SplitSkipsEither(value: string, i: nat, question: int, nested: nat)
    requires Holds(value, i, " || ") && -1 <= question < i
    ensures SplitFrom(value, i, NEUTRAL_SLOT, question, nested) == SplitFrom(value, i + 4, NEUTRAL_SLOT, question, nested)
  {
    HoldsAt(value, i, " || ", 0);
    HoldsAt(value, i, " || ", 1);
    HoldsAt(value, i, " || ", 2);
    HoldsAt(value, i, " || ", 3);
    assert SplitFrom(value, i, NEUTRAL_SLOT, question, nested) == SplitFrom(value, i + 1, NEUTRAL_SLOT, question, nested);
    assert SplitFrom(value, i + 1, NEUTRAL_SLOT, question, nested) == SplitFrom(value, i + 2, NEUTRAL_SLOT, question, nested);
    assert SplitFrom(value, i + 2, NEUTRAL_SLOT, question, nested) == SplitFrom(value, i + 3, NEUTRAL_SLOT, question, nested);
  }

  lemma SplitOpens(value: string, i: nat, question: int, nested: nat)
    requires Holds(value, i, " ? ") && -1 <= question < i
    ensures SplitFrom(value, i, NEUTRAL_SLOT, question, nested)
         == SplitFrom(value, i + 3, NEUTRAL_SLOT, if question < 0 then i + 1 else question,
                      if question < 0 then nested else nested + 1)
  {
    HoldsAt(value, i, " ? ", 0);
    HoldsAt(value, i, " ? ", 1);
    HoldsAt(value, i, " ? ", 2);
    assert SplitFrom(value, i, NEUTRAL_SLOT, question, nested) == SplitFrom(value, i + 1, NEUTRAL_SLOT, question, nested);
    assert !OperatorQuestion(value, i + 1);
    var q, n := if question < 0 then i + 1 else question, if question < 0 then nested else nested + 1;
    assert SplitFrom(value, i + 1, NEUTRAL_SLOT, question, nested) == SplitFrom(value, i + 2, NEUTRAL_SLOT, q, n);
  }

  lemma SplitCloses(value: string, i: nat, question: int, nested: nat)
    requires Holds(value, i, " : ") && 0 <= question < i
    ensures SplitFrom(value, i, NEUTRAL_SLOT, question, nested)
         == if nested == 0 then Some(Branches(question, i + 1)) else SplitFrom(value, i + 3, NEUTRAL_SLOT, question, nested - 1)
  {
    HoldsAt(value, i, " : ", 0);
    HoldsAt(value, i, " : ", 1);
    HoldsAt(value, i, " : ", 2);
    assert SplitFrom(value, i, NEUTRAL_SLOT, question, nested) == SplitFrom(value, i + 1, NEUTRAL_SLOT, question, nested);
    if nested > 0 {
      assert SplitFrom(value, i + 1, NEUTRAL_SLOT, question, nested) == SplitFrom(value, i + 2, NEUTRAL_SLOT, question, nested - 1);
    }
  }

  lemma {:induction false} PrintNonEmpty(e: Expr)
    requires WellFormed(e)
    ensures Print(e) != ""
  {
    match e
    case Coalesce(left, _) => PrintNonEmpty(left);
    case Either(left, _) => PrintNonEmpty(left);
    case Conditional(test, _, _) => PrintNonEmpty(test);
    case _ =>
  }

  predicate MayStart(i: nat, question: int) {
    -1 <= question < i || (i == 0 && question == -1)
  }

  /** The conditional scan leaves such a part as it entered it: always if the part is `plain`,
      and once a question mark was found in any case. */
  ghost predicate Passed(part: string, plain: bool) {
    forall value, i: nat, question, nested: nat {:trigger PassedAt(value, i, |part|, question, nested)} ::
      Holds(value, i, part) && MayStart(i, question) && (plain || question >= 0) ==>
        PassedAt(value, i, |part|, question, nested)
  }

  ghost predicate PassedAt(value: string, i: nat, n: nat, question: int, nested: nat)
    requires MayStart(i, question)
  {
    SplitFrom(value, i, NEUTRAL_SLOT, question, nested) == SplitFrom(value, i + n, NEUTRAL_SLOT, question, nested)
  }

  lemma PassedThen(value: string, i: nat, n: nat, m: nat, question: int, nested: nat)
    requires MayStart(i, question) && PassedAt(value, i, n, question, nested) && PassedAt(value, i + n, m, question, nested)
    ensures PassedAt(value, i, n + m, question, nested)
  {
  }

  lemma InertPassed(part: string)
    requires Inert(part)
    ensures Passed(part, true)
  {
    forall value, i: nat, question, nested: nat | Holds(value, i, part) && MayStart(i, question)
      ensures PassedAt(value, i, |part|, question, nested)
    {
      SplitSkipsAll(value, i, part, question, nested);
    }
  }

  /** Operands of `??` and `||`. */
  lemma JoinPassed(left: string, between: string, right: string)
    requires between == " ?? " || between == " || "
    requires left != "" && Passed(left, true) && Passed(right, true)
    ensures Passed(left + (between + right), true)
  {
    var part := left + (between + right);
    forall value, i: nat, question, nested: nat | Holds(value, i, part) && MayStart(i, question)
      ensures PassedAt(value, i, |part|, question, nested)
    {
      HoldsParts(value, i, left, between + right);
      HoldsParts(value, i + |left|, between, right);
      BetweenPassed(value, i + |left|, between, question, nested);
      PassedThen(value, i, |left|, 4, question, nested);
      PassedThen(value, i, |left| + 4, |right|, question, nested);
    }
  }

  lemma BetweenPassed(value: string, i: nat, between: string, question: int, nested: nat)
    requires between == " ?? " || between == " || "
    requires Holds(value, i, between) && -1 <= question < i
    ensures PassedAt(value, i, 4, question, nested)
  {
    if between == " ?? " {
      SplitSkipsCoalesce(value, i, question, nested);
    } else {
      SplitSkipsEither(value, i, question, nested);
    }
  }

  lemma ConditionalPassed(test: string, whenTrue: string, whenFalse: string)
    requires test != "" && Passed(test, true) && Passed(whenTrue, false) && Passed(whenFalse, false)
    ensures Passed(test + (" ? " + (whenTrue + (" : " + whenFalse))), false)
  {
    hide PassedAt;
    var part := test + (" ? " + (whenTrue + (" : " + whenFalse)));
    forall value, i: nat, question, nested: nat | Holds(value, i, part) && MayStart(i, question) && question >= 0
      ensures PassedAt(value, i, |part|, question, nested)
    {
      HoldsConditional(value, i, test, whenTrue, whenFalse);
      var open, close := i + |test|, i + |test| + 3 + |whenTrue|;
      assert PassedAt(value, i, |test|, question, nested);
      BranchPassed(value, open, whenTrue, question, nested);
      PassedThen(value, i, |test|, 6 + |whenTrue|, question, nested);
      PassedThen(value, i, |test| + 6 + |whenTrue|, |whenFalse|, question, nested);
    }
  }

  lemma HoldsConditional(value: string, i: nat, test: string, whenTrue: string, whenFalse: string)
    requires Holds(value, i, test + (" ? " + (whenTrue + (" : " + whenFalse))))
    ensures Holds(value, i, test) && Holds(value, i + |test|, " ? ") && Holds(value, i + |test| + 3, whenTrue)
    ensures Holds(value, i + |test| + 3 + |whenTrue|, " : ") && Holds(value, i + |test| + 6 + |whenTrue|, whenFalse)
  {
    HoldsParts(value, i, test, " ? " + (whenTrue + (" : " + whenFalse)));
    HoldsParts(value, i + |test|, " ? ", whenTrue + (" : " + whenFalse));
    HoldsParts(value, i + |test| + 3, whenTrue, " : " + whenFalse);
    HoldsParts(value, i + |test| + 3 + |whenTrue|, " : ", whenFalse);
  }

  /** An inner conditional opens and closes around its first branch. */
  lemma BranchPassed(value: string, i: nat, whenTrue: string, question: int, nested: nat)
    requires Holds(value, i, " ? ") && Holds(value, i + 3, whenTrue) && Holds(value, i + 3 + |whenTrue|, " : ")
    requires 0 <= question < i && Passed(whenTrue, false)
    ensures PassedAt(value, i, 6 + |whenTrue|, question, nested)
  {
    SplitOpens(value, i, question, nested);
    assert PassedAt(value, i + 3, |whenTrue|, question, nested + 1);
    SplitCloses(value, i + 3 + |whenTrue|, question, nested + 1);
  }

  lemma {:induction false} PrintPassed(e: Expr)
    requires WellFormed(e)
    ensures Passed(Print(e), !e.Conditional?)
  {
    PrintNonEmpty(e);
    match e
    case Coalesce(left, right) =>
      PrintPassed(left);
      PrintPassed(right);
      PrintNonEmpty(left);
      JoinPassed(Print(left), " ?? ", Print(right));
    case Either(left, right) =>
      PrintPassed(left);
      PrintPassed(right);
      PrintNonEmpty(left);
      JoinPassed(Print(left), " || ", Print(right));
    case Conditional(test, whenTrue, whenFalse) =>
      PrintPassed(test);
      PrintPassed(whenTrue);
      PrintPassed(whenFalse);
      PrintNonEmpty(test);
      PassedWeaken(Print(whenTrue), !whenTrue.Conditional?);
      PassedWeaken(Print(whenFalse), !whenFalse.Conditional?);
      ConditionalPassed(Print(test), Print(whenTrue), Print(whenFalse));
    case _ =>
      PrintContained(e);
      InertPassed(Print(e));
  }

  lemma PassedWeaken(part: string, plain: bool)
    requires Passed(part, plain)
    ensures Passed(part, false)
  {
  }

  /** A conditional is split around its two branches. */
  lemma SplitsAt(test: string, whenTrue: string, whenFalse: string)
    requires test != "" && Passed(test, true) && Passed(whenTrue, false)
    ensures var value := test + (" ? " + (whenTrue + (" : " + whenFalse)));
            SplitConditional(value) == Some(Branches(|test| + 1, |test| + 4 + |whenTrue|))
  {
    var value := test + (" ? " + (whenTrue + (" : " + whenFalse)));
    assert value[0..0 + |value|] == value;
    HoldsConditional(value, 0, test, whenTrue, whenFalse);
    assert PassedAt(value, 0, |test|, -1, 0);
    SplitOpens(value, |test|, -1, 0);
    assert PassedAt(value, |test| + 3, |whenTrue|, |test| + 1, 0);
    SplitCloses(value, |test| + 3 + |whenTrue|, |test| + 1, 0);
  }

  lemma ConditionalSlices(test: string, whenTrue: string, whenFalse: string)
    ensures var value := test + (" ? " + (whenTrue + (" : " + whenFalse)));
            |value| == |test| + 6 + |whenTrue| + |whenFalse|
            && value[|test| + 2..|test| + 4 + |whenTrue|] == " " + whenTrue + " "
            && value[|test| + 5 + |whenTrue|..] == " " + whenFalse
  {
  }

  ghost predicate SplitsInto(value: string, whenTrue: string, whenFalse: string) {
    && SplitConditional(value).Some?
    && var split := SplitConditional(value).value;
       value[split.question + 1..split.colon] == " " + whenTrue + " " && value[split.colon + 1..] == " " + whenFalse
  }

  lemma SplitsIntoBranches(test: string, whenTrue: string, whenFalse: string)
    requires test != "" && Passed(test, true) && Passed(whenTrue, false)
    ensures SplitsInto(test + (" ? " + (whenTrue + (" : " + whenFalse))), whenTrue, whenFalse)
  {
    SplitsAt(test, whenTrue, whenFalse);
    ConditionalSlices(test, whenTrue, whenFalse);
  }

  lemma ConditionalSplits(test: Expr, whenTrue: Expr, whenFalse: Expr)
    requires WellFormed(Conditional(test, whenTrue, whenFalse))
    ensures SplitsInto(Print(Conditional(test, whenTrue, whenFalse)), Print(whenTrue), Print(whenFalse))
  {
    PrintPassed(test);
    PrintPassed(whenTrue);
    PassedWeaken(Print(whenTrue), !whenTrue.Conditional?);
    PrintNonEmpty(test);
    SplitsIntoBranches(Print(test), Print(whenTrue), Print(whenFalse));
  }

  lemma PassedNeverSplits(value: string)
    requires Passed(value, true)
    ensures SplitConditional(value).None?
  {
    assert Holds(value, 0, value);
    assert PassedAt(value, 0, |value|, -1, 0);
  }

  /** Nothing else is split as a conditional. */
  lemma NoConditional(e: Expr)
    requires WellFormed(e) && !e.Conditional?
    ensures SplitConditional(Print(e)).None?
  {
    PrintPassed(e);
    PassedNeverSplits(Print(e));
  }

  // ---- Operators.

  /** The search for an operator passes such a part. */
  ghost predicate Searched(part: string, operator: string) {
    forall value, i: nat {:trigger SearchedAt(value, i, |part|, operator)} ::
      Holds(value, i, part) && NoBar(value, i + |part|) ==> SearchedAt(value, i, |part|, operator)
  }

  predicate NoBar(value: string, i: nat) {
    i < |value| ==> value[i] != '|'
  }

  ghost predicate SearchedAt(value: string, i: nat, n: nat, operator: string)
    requires i + n <= |value|
  {
    OperatorFrom(value, i, NEUTRAL_SLOT, operator) == OperatorFrom(value, i + n, NEUTRAL_SLOT, operator)
  }

  lemma SearchStep(value: string, p: nat, st: SlotScan, operator: string)
    requires p < |value| && |operator| == 2
    requires st.TopLevel() ==> value[p] != operator[0] || p + 1 == |value| || value[p + 1] != operator[1]
    ensures OperatorFrom(value, p, st, operator) == OperatorFrom(value, p + 1, st.Consume(value[p]), operator)
  {
    if p + 1 < |value| {
      assert value[p..][0] == value[p] && value[p..][1] == value[p + 1];
    }
  }

  lemma {:induction false} SearchSkips(value: string, i: nat, u: string, k: nat, operator: string)
    requires Holds(value, i, u) && NoBar(value, i + |u|) && Inert(u) && k <= |u|
    requires operator == "??" || operator == "||"
    ensures OperatorFrom(value, i, NEUTRAL_SLOT, operator)
         == OperatorFrom(value, i + k, NEUTRAL_SLOT.ConsumeAll(u[..k]), operator)
  {
    hide OperatorFrom;
    if k > 0 {
      SearchSkips(value, i, u, k - 1, operator);
      PrefixStep(u, k);
      InertAt(value, i, u, k - 1, operator);
      SearchStep(value, i + k - 1, NEUTRAL_SLOT.ConsumeAll(u[..k - 1]), operator);
    }
  }

  lemma InertAt(value: string, i: nat, u: string, k: nat, operator: string)
    requires Holds(value, i, u) && NoBar(value, i + |u|) && Inert(u) && k < |u|
    requires operator == "??" || operator == "||"
    ensures value[i + k] == u[k]
    ensures NEUTRAL_SLOT.ConsumeAll(u[..k]).TopLevel() ==>
              value[i + k] != operator[0] || i + k + 1 == |value| || value[i + k + 1] != operator[1]
  {
    HoldsAt(value, i, u, k);
    if NEUTRAL_SLOT.ConsumeAll(u[..k]).TopLevel() {
      assert Quiet(u, k);
      if k + 1 < |u| {
        HoldsAt(value, i, u, k + 1);
      }
    }
  }

  lemma InertSearched(part: string, operator: string)
    requires Inert(part) && (operator == "??" || operator == "||")
    ensures Searched(part, operator)
  {
    forall value, i: nat | Holds(value, i, part) && NoBar(value, i + |part|)
      ensures SearchedAt(value, i, |part|, operator)
    {
      SearchSkips(value, i, part, |part|, operator);
      assert part[..|part|] == part;
    }
  }

  lemma SearchedThen(value: string, i: nat, n: nat, m: nat, operator: string)
    requires i + n + m <= |value| && SearchedAt(value, i, n, operator) && SearchedAt(value, i + n, m, operator)
    ensures SearchedAt(value, i, n + m, operator)
  {
  }

  lemma EitherAt(value: string, i: nat, l: nat, r: nat)
    requires i + l + 4 + r <= |value| && Holds(value, i + l, " || ")
    requires SearchedAt(value, i, l, "??") && SearchedAt(value, i + l + 4, r, "??")
    ensures SearchedAt(value, i, l + 4 + r, "??")
  {
    BarsSearched(value, i + l);
    SearchedThen(value, i, l, 4, "??");
    SearchedThen(value, i, l + 4, r, "??");
  }

  lemma EitherPart(value: string, i: nat, left: string, right: string)
    requires Searched(left, "??") && Searched(right, "??")
    requires Holds(value, i, left) && Holds(value, i + |left|, " || ") && Holds(value, i + |left| + 4, right)
    requires NoBar(value, i + |left|) && NoBar(value, i + |left| + 4 + |right|)
    ensures SearchedAt(value, i, |left| + 4 + |right|, "??")
  {
    hide SearchedAt;
    assert SearchedAt(value, i, |left|, "??");
    assert SearchedAt(value, i + |left| + 4, |right|, "??");
    EitherAt(value, i, |left|, |right|);
  }

  lemma HoldsEither(value: string, i: nat, left: string, right: string)
    requires Holds(value, i, left + (" || " + right))
    ensures Holds(value, i, left) && Holds(value, i + |left|, " || ") && Holds(value, i + |left| + 4, right)
    ensures NoBar(value, i + |left|)
  {
    HoldsParts(value, i, left, " || " + right);
    HoldsParts(value, i + |left|, " || ", right);
    HoldsAt(value, i + |left|, " || ", 0);
  }

  lemma EitherSearched(left: string, right: string)
    requires Searched(left, "??") && Searched(right, "??")
    ensures Searched(left + (" || " + right), "??")
  {
    var part := left + (" || " + right);
    forall value, i: nat | Holds(value, i, part) && NoBar(value, i + |part|)
      ensures SearchedAt(value, i, |part|, "??")
    {
      HoldsEither(value, i, left, right);
      EitherPart(value, i, left, right);
    }
  }

  lemma BarsSearched(value: string, i: nat)
    requires Holds(value, i, " || ")
    ensures SearchedAt(value, i, 4, "??")
  {
    HoldsAt(value, i, " || ", 0);
    HoldsAt(value, i, " || ", 1);
    HoldsAt(value, i, " || ", 2);
    HoldsAt(value, i, " || ", 3);
    BarStep(value, i);
    BarStep(value, i + 1);
    SearchedThen(value, i, 1, 1, "??");
    BarStep(value, i + 2);
    SearchedThen(value, i, 2, 1, "??");
    BarStep(value, i + 3);
    SearchedThen(value, i, 3, 1, "??");
  }

  lemma BarStep(value: string, i: nat)
    requires i < |value| && (value[i] == ' ' || value[i] == '|')
    ensures SearchedAt(value, i, 1, "??")
  {
    assert value[i..][0] == value[i];
  }

  /** The first operand ends at the first occurrence of the operator. */
  lemma OperatorFound(left: string, operator: string, right: string)
    requires (operator == "??" || operator == "||") && Searched(left, operator)
    ensures var value := left + (" " + operator + " " + right);
            OperatorFrom(value, 0, NEUTRAL_SLOT, operator) == |left| + 1
            && value[..|left| + 1] == left + " " && value[|left| + 3..] == " " + right
  {
    var value := left + (" " + operator + " " + right);
    OperatorSlices(left, operator, right);
    assert SearchedAt(value, 0, |left|, operator);
    SearchStep(value, |left|, NEUTRAL_SLOT, operator);
    FoundAt(value, |left| + 1, operator);
  }

  lemma OperatorSlices(left: string, operator: string, right: string)
    requires |operator| == 2 && operator[0] != ' ' && operator[0] != '('
    ensures var value := left + (" " + operator + " " + right);
            |value| == |left| + 4 + |right| && Holds(value, 0, left) && value[|left|] == ' '
            && value[..|left| + 1] == left + " " && value[|left| + 3..] == " " + right
            && value[|left| + 1] == operator[0] && value[|left| + 2] == operator[1]
  {
    var value := left + (" " + operator + " " + right);
    assert value[0..|left|] == left;
  }

  lemma FoundAt(value: string, i: nat, operator: string)
    requires i + 2 <= |value| && |operator| == 2 && value[i] == operator[0] && value[i + 1] == operator[1]
    ensures OperatorFrom(value, i, NEUTRAL_SLOT, operator) == i
  {
    assert operator == value[i..][..2];
  }

  lemma SpaceAround(s: string)
    requires s != "" && Trimmed(s)
    ensures Trim(s + " ") == s && Trim(" " + s) == s && Trim(" " + s + " ") == s && Trim(s) == s
  {
    TrimPadding("", s, " ");
    TrimPadding(" ", s, "");
    TrimPadding(" ", s, " ");
    assert "" + s + " " == s + " " && " " + s + "" == " " + s;
    TrimmedFixed(s);
  }

  lemma OperatorSplits(left: string, operator: string, right: string)
    requires (operator == "??" || operator == "||") && Searched(left, operator)
    requires left != "" && Trimmed(left) && right != "" && Trimmed(right)
    ensures SplitOperator(left + (" " + operator + " " + right), operator) == Some((left, right))
  {
    OperatorFound(left, operator, right);
    SpaceAround(left);
    SpaceAround(right);
  }

  lemma NoOperatorFound(value: string, operator: string)
    requires Searched(value, operator) && operator != ""
    ensures SplitOperator(value, operator).None?
  {
    assert Holds(value, 0, value) && NoBar(value, |value|);
    assert SearchedAt(value, 0, |value|, operator);
  }

  lemma UnitSearched(e: Expr, operator: string)
    requires WellFormed(e) && Unit(e) && (operator == "??" || operator == "||")
    ensures Searched(Print(e), operator)
  {
    PrintContained(e);
    InertSearched(Print(e), operator);
  }

  lemma {:induction false} EitherPrintSearched(e: Expr)
    requires WellFormed(e) && (Unit(e) || e.Either?)
    ensures Searched(Print(e), "??")
  {
    if e.Either? {
      UnitSearched(e.left, "??");
      EitherPrintSearched(e.right);
      EitherSearched(Print(e.left), Print(e.right));
    } else {
      UnitSearched(e, "??");
    }
  }

  // ---- Ends of printed expressions.

  predicate EndsWell(t: string) {
    t != "" && Trimmed(t) && t[|t| - 1] != ',' && t[|t| - 1] != ';'
  }

  lemma JoinEndsWell(left: string, between: string, right: string)
    requires EndsWell(left) && EndsWell(right)
    ensures EndsWell(left + (between + right))
  {
    var t := left + (between + right);
    assert t[0] == left[0] && t[|t| - 1] == right[|right| - 1];
  }

  lemma ReferenceEndsWell(name: string, arguments: Option<string>, form: Form)
    requires IsIdentifier(name)
    ensures EndsWell(Print(Reference(name, arguments, form)))
  {
    var t := Print(Reference(name, arguments, form));
    assert t[0] == 't' || t[0] == name[0];
    assert t[|t| - 1] == ')' || t[|t| - 1] == '!' || t[|t| - 1] == name[|name| - 1];
  }

  lemma {:induction false} PrintEndsWell(e: Expr)
    requires WellFormed(e)
    ensures EndsWell(Print(e))
  {
    match e
    case Reference(name, arguments, form) => ReferenceEndsWell(name, arguments, form);
    case Coalesce(left, right) =>
      PrintEndsWell(left);
      PrintEndsWell(right);
      JoinEndsWell(Print(left), " ?? ", Print(right));
    case Either(left, right) =>
      PrintEndsWell(left);
      PrintEndsWell(right);
      JoinEndsWell(Print(left), " || ", Print(right));
    case Conditional(test, whenTrue, whenFalse) =>
      PrintEndsWell(test);
      PrintEndsWell(whenTrue);
      PrintEndsWell(whenFalse);
      JoinEndsWell(Print(whenTrue), " : ", Print(whenFalse));
      JoinEndsWell(Print(test), " ? ", Print(whenTrue) + (" : " + Print(whenFalse)));
    case _ =>
  }

  lemma TrimSourceOf(left: string, t: string, right: string)
    requires EndsWell(t) && AllSpace(left) && AllSpace(right)
    ensures TrimSource(left + t + right) == t
  {
    TrimPadding(left, t, right);
    TrimmedFixed(t);
  }
}
