/** Why the hypotheses of selector soundness are needed: a type that does not bound the values,
    a bare name in a script, and a function read as its body. */
module SelectorWitnesses {
  import opened AdminModel
  import opened ComponentOverlay
  import opened TextScan
  import opened TypeText
  import opened StaticChain
  import opened SelectorText
  import opened SelectorSyntax
  import opened SelectorReading
  import opened SelectorResolver
  import opened SelectorTypes
  import opened SelectorSoundness

  predicate Word(t: string) {
    t != "" && forall i :: 0 <= i < |t| ==> 'a' <= t[i] <= 'z' || t[i] == '-'
  }

  lemma LetterTurn(st: TypeScan, rest: string)
    requires rest != "" && ('a' <= rest[0] <= 'z' || rest[0] == '-')
    requires st == NEUTRAL || st == NEUTRAL.(quoted := true, quote := '\'')
    ensures Turn(st, rest, '|') == (st, 1, false)
  {
  }

  lemma {:induction false} WordIsOnePiece(t: string)
    requires forall i :: 0 <= i < |t| ==> 'a' <= t[i] <= 'z' || t[i] == '-'
    ensures FirstPiece(t, '|', NEUTRAL) == (t, None)
  {
    if t != "" {
      LetterTurn(NEUTRAL, t);
      WordIsOnePiece(t[1..]);
      assert t[..1] + t[1..] == t;
    }
  }

  lemma WordSplits(t: string)
    requires Word(t)
    ensures Split(t, '|') == [t] && Trim(t) == t
  {
    WordIsOnePiece(t);
    TrimmedFixed(t);
  }

  lemma ResolvesCore(c: SelectorComponent, e: Expr, resolving: set<string>)
    requires WellFormed(e) && !e.Group?
    ensures Resolve(c, Print(e), resolving) == ResolveCore(c, Print(e), resolving)
  {
    assert "" + Print(e) + "" == Print(e);
    CorePrint("", e, "");
  }

  /** A text that is neither string, constant nor operator is looked up as a reference. */
  lemma ReferenceCore(c: SelectorComponent, t: string, name: string, called: bool, resolving: set<string>)
    requires t != "" && StaticString(t).None? && !IsConstant(t) && t !in c.cms
    requires SplitConditional(t).None? && SplitOperator(t, "??").None? && SplitOperator(t, "||").None?
    requires SingleReference(t).Some? && SingleReference(t).value.name == name && SingleReference(t).value.called == called
    ensures ResolveCore(c, t, resolving) == ResolveReference(c, name, called, resolving)
  {
  }

  lemma ReferenceResolves(c: SelectorComponent, name: string, arguments: Option<string>, form: Form, resolving: set<string>)
    requires WellFormed(Reference(name, arguments, form)) && Print(Reference(name, arguments, form)) !in c.cms
    ensures Resolve(c, Print(Reference(name, arguments, form)), resolving)
         == ResolveReference(c, name, arguments.Some?, resolving)
  {
    var e := Reference(name, arguments, form);
    ResolvesCore(c, e, resolving);
    PrintNonEmpty(e);
    StringReads(e);
    ConstantReads(e);
    NoConditional(e);
    UnitReads(e);
    ReferenceReads(name, arguments, form);
    ReferenceCore(c, Print(e), name, arguments.Some?, resolving);
  }

  lemma MemberAnswer(c: SelectorComponent, name: string, called: bool, m: SelectorMember, resolving: set<string>)
    requires c.locals == [] && Referenced(c, name, called) == Some(m) && Key(m) !in resolving
    ensures ResolveReference(c, name, called, resolving) == ResolveMember(c, m, resolving + {Key(m)})
  {
    GuardGrows(c, resolving, m);
  }

  /** A reference that is no local component is answered by its member. */
  lemma ReferenceAnswer(c: SelectorComponent, name: string, arguments: Option<string>, m: SelectorMember, resolving: set<string>)
    requires WellFormed(Reference(name, arguments, BARE)) && c.locals == [] && c.cms == map[]
    requires Referenced(c, name, arguments.Some?) == Some(m) && Key(m) !in resolving
    ensures Resolve(c, Print(Reference(name, arguments, BARE)), resolving) == ResolveMember(c, m, resolving + {Key(m)})
  {
    ReferenceResolves(c, name, arguments, BARE, resolving);
    MemberAnswer(c, name, arguments.Some?, m, resolving);
  }

  // ---- Types.

  lemma NullType()
    ensures NamesFromType("null") == Names([], true, true)
  {
    WordSplits("null");
    var alternatives: seq<string> := ["null"];
    assert alternatives[1..] == [];
    assert TypeStringLiteral("null") == "";
  }

  /** A data member seeded with null whose assignments cannot be resolved: the indexed type
      `null` is taken at its word before data is held to be open, so the answer is complete
      without a name, whatever the member holds. Without the type it is not complete. */
  lemma NullSeedSelector() returns (c: SelectorComponent, untyped: SelectorComponent)
    ensures exists m :: c.members == [m] && m.kind.DataMember? && m.memberType == "null" && m.source == "null"
                        && untyped == c.(members := [m.(memberType := "")])
    ensures Resolve(c, "current", {}) == Names([], true, true)
    ensures !Listed(Resolve(c, "current", {}).names, Str("sw-button"))
    ensures !Resolve(untyped, "current", {}).complete
  {
    hide SingleReference, ResolveReturns, NamesFromType, Resolve;
    var m := SelectorMember("current", DataMember, "null", "null", [], false);
    c := SelectorComponent([], [m], [Assignment("current", "this.pick()", "")], [], map[]);
    untyped := c.(members := [m.(memberType := "")]);
    var e := Reference("current", None, BARE);
    assert Print(e) == "current";
    ReferenceAnswer(c, "current", None, m, {});
    ReferenceAnswer(untyped, "current", None, m.(memberType := ""), {});
    NullType();
    UntypedDataIsOpen(untyped, m.(memberType := ""), {} + {Key(m)});
  }

  lemma UntypedDataIsOpen(c: SelectorComponent, m: SelectorMember, resolving: set<string>)
    requires m.kind.DataMember? && Trim(m.memberType) == "" && m.returned == []
    ensures !ResolveMember(c, m, resolving).complete
  {
    if m.source != "" && Resolve(c, m.source, resolving).found {
      AssignmentsFound(c, m.name, c.assignments, resolving, Resolve(c, m.source, resolving));
    }
  }

  lemma {:induction false} BacktickPiece(inner: string)
    requires '`' !in inner && '\\' !in inner
    ensures FirstPiece(inner + "`", '|', NEUTRAL.(quoted := true, quote := '`')) == (inner + "`", None)
  {
    var st, rest := NEUTRAL.(quoted := true, quote := '`'), inner + "`";
    if inner == "" {
      assert Turn(st, rest, '|') == (NEUTRAL.(quote := '`'), 1, false);
      assert rest[1..] == "" && rest[..1] == rest;
    } else {
      assert rest[0] == inner[0] && inner[0] in inner;
      assert Turn(st, rest, '|') == (st, 1, false);
      assert rest[1..] == inner[1..] + "`" && rest[..1] + rest[1..] == rest;
      BacktickPiece(inner[1..]);
    }
  }

  lemma BacktickSplits(inner: string)
    requires '`' !in inner && '\\' !in inner
    ensures Split("`" + (inner + "`"), '|') == ["`" + (inner + "`")] && Trim("`" + (inner + "`")) == "`" + (inner + "`")
  {
    var t := "`" + (inner + "`");
    BacktickPiece(inner);
    assert Turn(NEUTRAL, t, '|') == (NEUTRAL.(quoted := true, quote := '`'), 1, false);
    assert t[1..] == inner + "`" && t[..1] + t[1..] == t;
    assert FirstPiece(t, '|', NEUTRAL) == (t, None);
    TrimmedFixed(t);
  }

  /** A member typed by a template literal is answered, completely, by the text between the
      backticks; where that text has a hole, the type admits a value that is not listed. */
  lemma PatternFamily(c: SelectorComponent, m: SelectorMember, inner: string)
    requires c.locals == [] && c.cms == map[] && Referenced(c, m.name, false) == Some(m)
    requires IsIdentifier(m.name) && !IsConstant(m.name) && !m.kind.MethodMember?
    requires m.memberType == "`" + (inner + "`") && inner != "" && Trimmed(inner) && '`' !in inner && '\\' !in inner
    ensures Resolve(c, m.name, {}) == Names([inner], true, true)
    ensures (exists v :: Inhabits(m.memberType, v) && !Listed(Resolve(c, m.name, {}).names, v)) <==> Interpolates(inner)
  {
    PatternNames(inner);
    BareAnswer(c, m, {}, m.name);
    TypedAnswer(c, m, {} + {Key(m)}, [inner]);
    TypeCoversIff(m.memberType);
    PatternIsPlainIff(inner);
  }

  lemma PatternNames(inner: string)
    requires inner != "" && Trimmed(inner) && '`' !in inner && '\\' !in inner
    ensures NamesFromType("`" + (inner + "`")) == Names([inner], true, true)
  {
    var t := "`" + (inner + "`");
    BacktickSplits(inner);
    TrimmedFixed(inner);
    assert t[1..|t| - 1] == inner && TypeStringLiteral(t) == inner;
    var alternatives: seq<string> := [t];
    assert alternatives[1..] == [];
    OneName(inner);
    assert NamesFromAlternatives(alternatives, []) == NamesFromAlternatives(alternatives[1..], [inner]);
  }

  lemma OneName(name: string)
    requires name != ""
    ensures AppendUnique([], [name]) == [name]
  {
    assert [name][..0] == [];
  }

  lemma PatternIsPlainIff(inner: string)
    requires inner != "" && Trimmed(inner) && '`' !in inner && '\\' !in inner
    ensures PlainType("`" + (inner + "`")) <==> !Interpolates(inner)
  {
    var t := "`" + (inner + "`");
    BacktickSplits(inner);
    TrimmedFixed(inner);
    assert t[1..|t| - 1] == inner && TypeStringLiteral(t) == inner;
    assert t in Split(Trim(t), '|');
  }

  lemma FrontOfWitness()
    ensures Interpolates("sw-${string}") && FrontOf("sw-${string}") == "sw-"
  {
    var inner := "sw-${string}";
    assert InterpolatesAt(inner, 3);
    assert inner[1..] == "w-${string}" && inner[1..][1..] == "-${string}" && inner[1..][1..][1..] == "${string}";
    assert InterpolatesAt("${string}", 0);
  }

  /** `` `sw-${string}` `` admits sw-card, and is answered by its own text alone. */
  lemma PatternWitness(c: SelectorComponent, m: SelectorMember)
    requires c.locals == [] && c.cms == map[] && Referenced(c, m.name, false) == Some(m)
    requires m.name == "kind" && m.kind.PropMember? && m.memberType == "`" + ("sw-${string}" + "`")
    ensures Resolve(c, "kind", {}) == Names(["sw-${string}"], true, true)
    ensures Inhabits(m.memberType, Str("sw-card")) && !Listed(["sw-${string}"], Str("sw-card"))
  {
    hide Resolve, Split, Trim, FrontOf, Inhabits, Interpolates;
    PatternFamily(c, m, "sw-${string}");
    FrontOfWitness();
    PatternAdmits("sw-${string}", "sw-card");
    assert Trim("sw-card") == "sw-card" by { TrimmedFixed("sw-card"); }
  }

  lemma PatternAdmits(inner: string, text: string)
    requires '`' !in inner && '\\' !in inner && Interpolates(inner) && StartsWith(text, FrontOf(inner))
    ensures Inhabits("`" + (inner + "`"), Str(text))
  {
    var t := "`" + (inner + "`");
    BacktickSplits(inner);
    assert t[1..|t| - 1] == inner;
    assert t in Split(Trim(t), '|') && AlternativeHolds(t, Str(text));
  }

  // ---- Local components.

  /** A name or tag of a local component is answered by that component, whatever member bears the
      name, and behind `this.` too. */
  lemma LocalAnswer(c: SelectorComponent, name: string, form: Form, resolving: set<string>)
    requires WellFormed(Reference(name, None, form)) && Print(Reference(name, None, form)) !in c.cms
    requires FindLocal(c.locals, name).Some?
    ensures Resolve(c, Print(Reference(name, None, form)), resolving)
         == Names([FindLocal(c.locals, name).value.name], true, true)
  {
    ReferenceResolves(c, name, None, form, resolving);
  }

  /** So shared names must agree: the answers for them are right in every moment exactly when their
      members hold the local components, or nothing to render. */
  lemma SharedNamesAgreeIff(c: SelectorComponent, p: Program)
    requires forall name :: Find(c.members, name).Some? && FindLocal(c.locals, name).Some? ==>
               WellFormed(Reference(name, None, OF_THIS)) && Print(Reference(name, None, OF_THIS)) !in c.cms
    ensures SharedNamesAgree(c, p)
       <==> forall w, name :: p.worlds(w) && Find(c.members, name).Some? && FindLocal(c.locals, name).Some? ==>
              Listed(Resolve(c, Print(Reference(name, None, OF_THIS)), {}).names, Evaluate(w, Template, Reference(name, None, OF_THIS)))
  {
    forall name | Find(c.members, name).Some? && FindLocal(c.locals, name).Some?
      ensures Resolve(c, Print(Reference(name, None, OF_THIS)), {}).names == [FindLocal(c.locals, name).value.name]
    {
      LocalAnswer(c, name, OF_THIS, {});
    }
  }

  /** Where a member bears a local component's name, that answer is right for every value the
      member's type allows exactly when the type allows nothing but the component. */
  lemma SharedNameIff(c: SelectorComponent, m: SelectorMember, form: Form, resolving: set<string>)
    requires WellFormed(Reference(m.name, None, form)) && Print(Reference(m.name, None, form)) !in c.cms
    requires FindLocal(c.locals, m.name).Some? && Referenced(c, m.name, false) == Some(m)
    ensures var answer := Resolve(c, Print(Reference(m.name, None, form)), resolving);
            && answer.complete
            && ((forall v :: Allows(m.memberType, v) ==> Listed(answer.names, v))
                <==> OnlyNames(m.memberType, FindLocal(c.locals, m.name).value.name))
  {
    LocalAnswer(c, m.name, form, resolving);
    OneNameIff(m.memberType, FindLocal(c.locals, m.name).value.name);
  }

  lemma KebabOne(c: char)
    ensures CamelToKebab([c]) == [Lower(c)]
  {
    assert [c][..0] == [];
  }

  lemma KebabSnoc(s: string, c: char, longer: string, kebab: string, after: string)
    requires s != "" && longer == s + [c] && CamelToKebab(s) == kebab
    requires after == kebab + if Upper(c) then ['-', Lower(c)] else [Lower(c)]
    ensures CamelToKebab(longer) == after
  {
    assert longer[..|s|] == s;
  }

  lemma SwBu()
    ensures CamelToKebab("swBu") == "sw-bu"
  {
    hide CamelToKebab;
    KebabOne('s');
    KebabSnoc("s", 'w', "sw", "s", "sw");
    KebabSnoc("sw", 'B', "swB", "sw", "sw-b");
    KebabSnoc("swB", 'u', "swBu", "sw-b", "sw-bu");
  }

  lemma SwButton()
    ensures CamelToKebab("swButton") == "sw-button"
  {
    hide CamelToKebab;
    SwBu();
    KebabSnoc("swBu", 't', "swBut", "sw-bu", "sw-but");
    KebabSnoc("swBut", 't', "swButt", "sw-but", "sw-butt");
    KebabSnoc("swButt", 'o', "swButto", "sw-butt", "sw-butto");
    KebabSnoc("swButto", 'n', "swButton", "sw-butto", "sw-button");
  }

  /** Beside a local component sw-button, data swButton of type 'sw-card' is answered sw-button. */
  lemma SharedNameWitness(c: SelectorComponent, m: SelectorMember, form: Form)
    requires m.name == "swButton" && m.kind.DataMember? && m.memberType == "'sw-card'"
    requires c.members == [m] && c.cms == map[] && c.locals == [LocalEntry("sw-button", "SwButton", "")]
    ensures var answer := Resolve(c, Print(Reference("swButton", None, form)), {});
            answer == Names(["sw-button"], true, true) && !Listed(answer.names, Str("sw-card"))
  {
    hide Resolve, Print, WellFormed, CamelToKebab, Trim;
    assert CamelToKebab("swButton") == "sw-button" by { SwButton(); }
    assert WellFormed(Reference("swButton", None, form)) by { SwButtonIsName(form); }
    LocalAnswer(c, "swButton", form, {});
    assert Trim("sw-card") == "sw-card" by { TrimmedFixed("sw-card"); }
  }

  lemma SwButtonIsName(form: Form)
    ensures WellFormed(Reference("swButton", None, form))
  {
  }

  // ---- Names in scripts.

  /** A method that returns a variable of its script, beside a prop of the same name: the bare
      name is answered by the prop, so the answer is complete and lists what the prop can be,
      whatever the variable holds. */
  lemma ShadowedNameWitness(c: SelectorComponent, p: SelectorMember, m: SelectorMember, argument: string, tag: string)
    requires c.locals == [] && c.cms == map[] && tag != ""
    requires IsIdentifier(m.name) && IsIdentifier(argument) && IsIdentifier(p.name) && !IsConstant(p.name)
    requires Referenced(c, m.name, true) == Some(m) && Referenced(c, p.name, false) == Some(p)
    requires p.kind.PropMember? && NamesFromType(p.memberType) == Names([tag], true, true)
    requires m.kind.MethodMember? && m.memberType == "" && m.source == "" && m.returned == [p.name] && m.returnsComplete
    ensures Resolve(c, m.name + ("(" + argument + ")"), {}) == Names([tag], true, true)
  {
    KeysDiffer(p, m);
    var guard: set<string> := {} + {Key(m)};
    CallAnswer(c, m, m.name, argument);
    ReturnsAnswer(c, m, guard);
    assert Resolve(c, p.name, guard) == Names([tag], true, true) by {
      BareAnswer(c, p, guard, p.name);
      TypedAnswer(c, p, guard + {Key(p)}, [tag]);
    }
    ReturnsOne(c, p.name, guard, [tag]);
  }

  lemma KeysDiffer(p: SelectorMember, m: SelectorMember)
    requires p.kind.PropMember? && m.kind.MethodMember?
    ensures Key(p) != Key(m)
  {
    assert Key(p)[0] == 'p' && Key(m)[0] == 'm';
  }

  lemma CallAnswer(c: SelectorComponent, m: SelectorMember, name: string, argument: string)
    requires c.locals == [] && c.cms == map[] && Referenced(c, name, true) == Some(m)
    requires IsIdentifier(name) && IsIdentifier(argument)
    ensures Resolve(c, name + ("(" + argument + ")"), {}) == ResolveMember(c, m, {} + {Key(m)})
  {
    hide CallText, Print, Resolve, ResolveMember;
    IdentifierInert(argument);
    BareCall(argument);
    PrintBare(name, Some(argument));
    ReferenceAnswer(c, name, Some(argument), m, {});
  }

  lemma BareCall(argument: string)
    ensures CallText(Some(argument), BARE) == "(" + argument + ")"
  {
    assert "" + ("" + ("(" + argument + ")")) == "(" + argument + ")";
  }

  lemma PrintBare(name: string, arguments: Option<string>)
    ensures Print(Reference(name, arguments, BARE)) == name + CallText(arguments, BARE)
    ensures name + CallText(None, BARE) == name
  {
    assert "" + (name + CallText(arguments, BARE)) == name + CallText(arguments, BARE);
  }

  lemma BareAnswer(c: SelectorComponent, p: SelectorMember, guard: set<string>, bare: string)
    requires c.locals == [] && c.cms == map[] && Referenced(c, bare, false) == Some(p) && Key(p) !in guard
    requires IsIdentifier(bare) && !IsConstant(bare)
    ensures Resolve(c, bare, guard) == ResolveMember(c, p, guard + {Key(p)})
  {
    PrintBare(bare, None);
    ReferenceAnswer(c, bare, None, p, guard);
  }

  lemma TypedAnswer(c: SelectorComponent, m: SelectorMember, resolving: set<string>, names: seq<string>)
    requires NamesFromType(ValueType(m)) == Names(names, true, true)
    ensures ResolveMember(c, m, resolving) == Names(names, true, true)
  {
  }

  lemma ReturnsAnswer(c: SelectorComponent, m: SelectorMember, resolving: set<string>)
    requires m.kind.MethodMember? && m.memberType == "" && m.source == "" && m.returned != []
    ensures ResolveMember(c, m, resolving) == ResolveReturns(c, m.returned, resolving, Names([], true, m.returnsComplete))
  {
    assert ValueType(m) == "" && NamesFromType("") == NOTHING;
  }

  lemma ReturnsOne(c: SelectorComponent, text: string, resolving: set<string>, names: seq<string>)
    requires Resolve(c, text, resolving) == Names(names, true, true) && |names| == 1 && names[0] != ""
    ensures ResolveReturns(c, [text], resolving, Names([], true, true)) == Names(names, true, true)
  {
    assert names[..0] == [] && names == [names[0]];
    assert AppendUnique([], names) == names;
    var returned: seq<string> := [text];
    assert returned[1..] == [];
  }

  lemma PlainCore(value: string)
    requires EndsWell(value) && value[0] != '('
    ensures Core(value) == value
  {
    TrimSourceOf("", value, "");
    assert "" + value + "" == value;
    TrimmedFixed(value);
  }

  /** Whatever stands in front of a top-level question mark is taken for a test. */
  lemma HeadIsTakenForTest(c: SelectorComponent, head: string, whenTrue: Expr, whenFalse: Expr)
    requires Inert(head) && EndsWell(head) && head[0] != '(' && !IsQuote(head[0])
    requires WellFormed(whenTrue) && WellFormed(whenFalse)
    ensures Resolve(c, head + (" ? " + (Print(whenTrue) + (" : " + Print(whenFalse)))), {})
         == Merge(Resolve(c, Print(whenTrue), {}), Resolve(c, Print(whenFalse), {}))
  {
    HeadSplits(head, whenTrue, whenFalse);
    BranchesUnpadded(c, whenTrue, whenFalse);
    CoreAnswer(c, head + (" ? " + (Print(whenTrue) + (" : " + Print(whenFalse)))), Print(whenTrue), Print(whenFalse));
  }

  lemma BranchesUnpadded(c: SelectorComponent, whenTrue: Expr, whenFalse: Expr)
    requires WellFormed(whenTrue) && WellFormed(whenFalse)
    ensures Merge(Resolve(c, " " + Print(whenTrue) + " ", {}), Resolve(c, " " + Print(whenFalse), {}))
         == Merge(Resolve(c, Print(whenTrue), {}), Resolve(c, Print(whenFalse), {}))
  {
    PaddingIgnored(c, " ", whenTrue, " ");
    PaddingIgnored(c, " ", whenFalse, "");
    assert " " + Print(whenFalse) + "" == " " + Print(whenFalse);
  }

  lemma CoreAnswer(c: SelectorComponent, value: string, t: string, f: string)
    requires EndsWell(value) && value[0] != '(' && StaticString(value).None? && !IsConstant(value) && SplitsInto(value, t, f)
    ensures Resolve(c, value, {}) == Merge(Resolve(c, " " + t + " ", {}), Resolve(c, " " + f, {}))
  {
    PlainCore(value);
    SplitCore(c, value, {}, t, f);
  }

  lemma HeadShape(head: string, t: string, f: string)
    requires EndsWell(head) && EndsWell(t) && EndsWell(f) && head[0] != '(' && !IsQuote(head[0])
    ensures var value := head + (" ? " + (t + (" : " + f)));
            EndsWell(value) && value[0] != '(' && StaticString(value).None? && !IsConstant(value)
  {
    var tail := t + (" : " + f);
    JoinEndsWell(t, " : ", f);
    JoinEndsWell(head, " ? ", tail);
    assert (head + (" ? " + tail))[0] == head[0];
    QuestionIsNoConstant(head, " " + tail);
    assert head + (" ? " + tail) == head + (" ?" + (" " + tail));
  }

  lemma HeadSplits(head: string, whenTrue: Expr, whenFalse: Expr)
    requires Inert(head) && EndsWell(head) && head[0] != '(' && !IsQuote(head[0])
    requires WellFormed(whenTrue) && WellFormed(whenFalse)
    ensures var value := head + (" ? " + (Print(whenTrue) + (" : " + Print(whenFalse))));
            EndsWell(value) && value[0] != '(' && StaticString(value).None? && !IsConstant(value)
            && SplitsInto(value, Print(whenTrue), Print(whenFalse))
  {
    InertPassed(head);
    PrintPassed(whenTrue);
    PassedWeaken(Print(whenTrue), !whenTrue.Conditional?);
    SplitsIntoBranches(head, Print(whenTrue), Print(whenFalse));
    PrintEndsWell(whenTrue);
    PrintEndsWell(whenFalse);
    HeadShape(head, Print(whenTrue), Print(whenFalse));
  }

  lemma QuestionIsNoConstant(head: string, tail: string)
    ensures !IsConstant(head + (" ?" + tail))
  {
    assert '?' in head + (" ?" + tail) by { assert (head + (" ?" + tail))[|head| + 1] == '?'; }
  }

  lemma PaddingIgnored(c: SelectorComponent, left: string, e: Expr, right: string)
    requires WellFormed(e) && AllSpace(left) && AllSpace(right)
    ensures Resolve(c, left + Print(e) + right, {}) == Resolve(c, Print(e), {})
  {
    hide Core;
    CorePrint(left, e, right);
    CorePrint("", e, "");
    assert "" + Print(e) + "" == Print(e);
  }

  /** So an arrow function whose body is a conditional is answered as if it were the
      conditional, and completely, although its value is a function. */
  lemma ArrowWitness(c: SelectorComponent, text: string)
    requires text == "item => item.big" + (" ? " + (("'" + "a" + "'") + (" : " + ("'" + "b" + "'"))))
    ensures Resolve(c, text, {}) == Merge(Names(["a"], true, true), Names(["b"], true, true))
    ensures Resolve(c, text, {}).complete
    ensures forall id :: !Listed(Resolve(c, text, {}).names, Other(id, true))
  {
    HeadIsInert();
    HeadAnswers(c, "item => item.big", "a", "b");
  }

  lemma HeadIsInert()
    ensures Inert("item => item.big")
  {
    PlainInert("item => item.big");
  }

  lemma HeadAnswers(c: SelectorComponent, head: string, x: string, y: string)
    requires Inert(head) && EndsWell(head) && head[0] != '(' && !IsQuote(head[0]) && Word(x) && Word(y)
    ensures Resolve(c, head + (" ? " + (("'" + x + "'") + (" : " + ("'" + y + "'")))), {})
         == Merge(Names([x], true, true), Names([y], true, true))
  {
    var a, b := Text('\'', x), Text('\'', y);
    TextAnswer(c, x);
    TextAnswer(c, y);
    assert Print(a) == "'" + x + "'" && Print(b) == "'" + y + "'";
    HeadIsTakenForTest(c, head, a, b);
  }

  lemma TextAnswer(c: SelectorComponent, name: string)
    requires Word(name)
    ensures WellFormed(Text('\'', name)) && Resolve(c, Print(Text('\'', name)), {}) == Names([name], true, true)
  {
    var e := Text('\'', name);
    assert '\\' !in name && '\'' !in name;
    assert "" + Print(e) + "" == Print(e);
    CorePrint("", e, "");
    StringReads(e);
  }
}
