/** Soundness of the selector analysis: when it answers complete, every value the expression
    can take is a listed component name, or null, undefined or false. */
module SelectorSoundness {
  import opened AdminModel
  import opened TextScan
  import opened SelectorText
  import opened SelectorSyntax
  import opened SelectorReading
  import opened SelectorResolver
  import opened SelectorTypes

  // ---- Evaluation.

  predicate Nullish(v: Value) {
    v.Undefined? || v.Null?
  }

  predicate Truthy(v: Value) {
    match v
    case Undefined => false
    case Null => false
    case False => false
    case Str(text) => text != ""
    case ComponentValue(_) => true
    case Other(_, truthy) => truthy
  }

  /** Where an expression stands: in the template, or as the text of a member in the script. */
  datatype Scope = Template | Script(text: string)

  /** One moment of a running component: what its members, the bare names in a scope and the
      expressions the analysis does not look into evaluate to. */
  datatype World = World(member: (string, Option<string>) -> Value, bare: (Scope, string, Option<string>) -> Value,
                         opaqueValue: (string, Scope) -> Value)

  function Refer(w: World, scope: Scope, name: string, arguments: Option<string>, qualified: bool): Value {
    if qualified then w.member(name, arguments) else w.bare(scope, name, arguments)
  }

  /** Sections 13.13 and 13.14 of ECMA-262. */
  function Evaluate(w: World, scope: Scope, e: Expr): Value {
    match e
    case Text(_, value) => Str(value)
    case Constantly(NullConstant) => Null
    case Constantly(UndefinedConstant) => Undefined
    case Constantly(FalseConstant) => False
    case Reference(name, arguments, form) => Refer(w, scope, name, arguments, form.qualified)
    case Spelled(_, name, arguments, qualified) => Refer(w, scope, name, arguments, qualified)
    case Opaque(source) => w.opaqueValue(source, scope)
    case Group(inner) => Evaluate(w, scope, inner)
    case Coalesce(left, right) =>
      var x := Evaluate(w, scope, left);
      if Nullish(x) then Evaluate(w, scope, right) else x
    case Either(left, right) =>
      var x := Evaluate(w, scope, left);
      if Truthy(x) then x else Evaluate(w, scope, right)
    case Conditional(test, whenTrue, whenFalse) =>
      if Truthy(Evaluate(w, scope, test)) then Evaluate(w, scope, whenTrue) else Evaluate(w, scope, whenFalse)
  }

  /** A component at work: the expressions its member texts spell, the moments it can be in, and the
      names declared around an expression: parameters and local variables around the text of a
      member, loop and slot variables in the template. */
  datatype Program = Program(reading: map<string, Expr>, worlds: World -> bool, declared: Scope -> set<string>)

  // ---- What the index is trusted for.

  /** A member's value is bounded by its indexed type; a member other than data is its source
      expression or nothing; a member with all its returns is one of them. */
  ghost predicate ValueFits(p: Program, m: SelectorMember, v: Value) {
    && Allows(ValueType(m), v)
    && (m.source != "" && !m.kind.DataMember? && !v.Undefined? ==>
          m.source in p.reading && exists w :: p.worlds(w) && v == Evaluate(w, Script(m.source), p.reading[m.source]))
    && (m.returned != [] && m.returnsComplete ==> ReturnFits(p, m.returned, v))
  }

  ghost predicate ReturnFits(p: Program, returned: seq<string>, v: Value) {
    exists w, text :: p.worlds(w) && text in returned && text in p.reading && v == Evaluate(w, Script(text), p.reading[text])
  }

  /** A member fits, whatever else has its name; a local component that has its name for itself
      renders as that component, or is nothing. */
  ghost predicate MemberFits(c: SelectorComponent, p: Program, w: World, name: string, arguments: Option<string>) {
    var local := FindLocal(c.locals, name);
    var member := Referenced(c, name, arguments.Some?);
    && (member.Some? ==> ValueFits(p, member.value, w.member(name, arguments)))
    && (local.Some? && arguments.None? && Find(c.members, name).None? ==> Listed([local.value.name], w.member(name, None)))
  }

  /** A bare name that nothing around declares is the member, or in the script an imported component. */
  ghost predicate BareFits(c: SelectorComponent, p: Program, w: World, scope: Scope, name: string, arguments: Option<string>) {
    var local := FindLocal(c.locals, name);
    name !in p.declared(scope) ==>
      if scope.Script? && local.Some? && arguments.None? then Listed([local.value.name], w.bare(scope, name, None))
      else w.bare(scope, name, arguments) == w.member(name, arguments)
  }

  ghost predicate CmsFits(c: SelectorComponent, w: World, e: Expr, scope: Scope) {
    Print(e) in c.cms && AppendUnique([], c.cms[Print(e)]) != [] ==>
      Listed(AppendUnique([], c.cms[Print(e)]), Evaluate(w, scope, e))
  }

  ghost predicate WorldFits(c: SelectorComponent, p: Program, w: World) {
    && (forall name, arguments :: MemberFits(c, p, w, name, arguments))
    && (forall scope, name, arguments :: BareFits(c, p, w, scope, name, arguments))
    && (forall e, scope :: CmsFits(c, w, e, scope))
  }

  /** Every moment fits, and `reading` gives the expressions the member texts spell. */
  ghost predicate Faithful(c: SelectorComponent, p: Program) {
    && (forall text :: text in p.reading ==> WellFormed(p.reading[text]) && Print(p.reading[text]) == text)
    && (forall w :: p.worlds(w) ==> WorldFits(c, p, w))
  }

  // ---- What the source must keep apart.

  /** The bare names whose values the expression can take. */
  function BareNames(e: Expr): set<string> {
    match e
    case Reference(name, _, form) => if form.qualified then {} else {name}
    case Spelled(_, name, _, qualified) => if qualified then {} else {name}
    case Group(inner) => BareNames(inner)
    case Coalesce(left, right) => BareNames(left) + BareNames(right)
    case Either(left, right) => BareNames(left) + BareNames(right)
    case Conditional(_, whenTrue, whenFalse) => BareNames(whenTrue) + BareNames(whenFalse)
    case _ => {}
  }

  /** Declared around the expression, a name is neither a member's nor a local component's. */
  predicate Own(c: SelectorComponent, p: Program, scope: Scope, name: string) {
    name in p.declared(scope) ==> Find(c.members, name).None? && FindLocal(c.locals, name).None?
  }

  predicate Unshadowed(c: SelectorComponent, p: Program, scope: Scope, e: Expr) {
    forall name :: name in BareNames(e) ==> Own(c, p, scope, name)
  }

  /** Members are typed by literals, as far as their types are taken for names. */
  predicate PlainTypes(c: SelectorComponent) {
    forall m :: m in c.members && Trim(ValueType(m)) != "" ==> PlainType(ValueType(m))
  }

  /** A member that shares a local component's name holds that component, or nothing to render. */
  ghost predicate SharedNamesAgree(c: SelectorComponent, p: Program) {
    forall w, name :: p.worlds(w) && Find(c.members, name).Some? && FindLocal(c.locals, name).Some? ==>
      Listed([FindLocal(c.locals, name).value.name], w.member(name, None))
  }

  /** Where nothing is confused: types are plain, shared names agree, and no text names a declared
      variable like a member. */
  ghost predicate Distinct(c: SelectorComponent, p: Program) {
    && PlainTypes(c) && SharedNamesAgree(c, p)
    && forall text :: text in p.reading ==> Unshadowed(c, p, Script(text), p.reading[text])
  }

  ghost predicate Trusted(c: SelectorComponent, p: Program) {
    Faithful(c, p) && Distinct(c, p)
  }

  /** Members and local components with names of their own always agree. */
  predicate NamesApart(c: SelectorComponent) {
    forall m :: m in c.members ==> FindLocal(c.locals, m.name).None?
  }

  lemma ApartAgree(c: SelectorComponent, p: Program)
    requires NamesApart(c)
    ensures SharedNamesAgree(c, p)
  {
  }

  // ---- Returns and assignments.

  lemma {:induction false} AssignmentsFound(c: SelectorComponent, target: string, rest: seq<Assignment>,
                                           resolving: set<string>, result: Names)
    requires result.found
    ensures ResolveAssignments(c, target, rest, resolving, result).found
    decreases |rest|
  {
    if rest != [] {
      if rest[0].target != target || rest[0].expression == "" {
        AssignmentsFound(c, target, rest[1..], resolving, result);
      } else {
        AssignmentsFound(c, target, rest[1..], resolving, Merge(result, Resolve(c, rest[0].expression, resolving)));
      }
    }
  }

  lemma {:induction false} ReturnsList(c: SelectorComponent, rest: seq<string>, resolving: set<string>, result: Names, v: Value)
    requires ResolveReturns(c, rest, resolving, result).complete
    ensures result.complete && ResolveReturns(c, rest, resolving, result).found == result.found
    ensures Listed(result.names, v) ==> Listed(ResolveReturns(c, rest, resolving, result).names, v)
    decreases |rest|
  {
    if rest != [] {
      var resolved := Resolve(c, rest[0], resolving);
      ReturnsList(c, rest[1..], resolving, WithReturn(result, resolved), v);
      if Listed(result.names, v) {
        ListedGrows(result.names, resolved.names, v);
      }
    }
  }

  lemma {:induction false} ReturnListed(c: SelectorComponent, rest: seq<string>, resolving: set<string>, result: Names,
                                       text: string, v: Value)
    requires ResolveReturns(c, rest, resolving, result).complete && text in rest && Covers(Resolve(c, text, resolving), v)
    ensures Listed(ResolveReturns(c, rest, resolving, result).names, v)
    decreases |rest|
  {
    var resolved := Resolve(c, rest[0], resolving);
    var next := WithReturn(result, resolved);
    ReturnsList(c, rest[1..], resolving, next, v);
    if text == rest[0] {
      ListedGrows(resolved.names, result.names, v);
    } else {
      ReturnListed(c, rest[1..], resolving, next, text, v);
    }
  }

  // ---- Soundness.

  lemma {:induction false} EvaluateCore(w: World, scope: Scope, e: Expr)
    ensures Evaluate(w, scope, CoreOf(e)) == Evaluate(w, scope, e) && |Print(CoreOf(e))| <= |Print(e)|
    ensures BareNames(CoreOf(e)) == BareNames(e)
  {
    if e.Group? {
      EvaluateCore(w, scope, e.inner);
    }
  }

  /** Every value of an expression is covered by the answer for its text, whatever white space
      surrounds it. */
  lemma {:induction false} Sound(c: SelectorComponent, p: Program, w: World, scope: Scope,
                                left: string, e: Expr, right: string, resolving: set<string>)
    requires Trusted(c, p) && p.worlds(w) && WellFormed(e) && Unshadowed(c, p, scope, e) && AllSpace(left) && AllSpace(right)
    ensures Covers(Resolve(c, left + Print(e) + right, resolving), Evaluate(w, scope, e))
    decreases |Keys(c) - resolving|, 0, |Print(e)|, 3
  {
    CorePrint(left, e, right);
    EvaluateCore(w, scope, e);
    SoundCore(c, p, w, scope, CoreOf(e), resolving);
  }

  lemma {:induction false} SoundCore(c: SelectorComponent, p: Program, w: World, scope: Scope, e: Expr, resolving: set<string>)
    requires Trusted(c, p) && p.worlds(w) && WellFormed(e) && Unshadowed(c, p, scope, e) && !e.Group?
    ensures Covers(ResolveCore(c, Print(e), resolving), Evaluate(w, scope, e))
    decreases |Keys(c) - resolving|, 0, |Print(e)|, 2
  {
    PrintNonEmpty(e);
    if e.Conditional? {
      SoundConditional(c, p, w, scope, e, resolving);
    } else if e.Coalesce? {
      SoundCoalesce(c, p, w, scope, e, resolving);
    } else if e.Either? {
      SoundEither(c, p, w, scope, e, resolving);
    } else {
      SoundUnit(c, p, w, scope, e, resolving);
    }
  }

  lemma PartsShrink(e: Expr)
    requires !Unit(e)
    ensures e.Conditional? ==> |Print(e.whenTrue)| < |Print(e)| && |Print(e.whenFalse)| < |Print(e)|
    ensures !e.Conditional? ==> |Print(e.left)| < |Print(e)| && |Print(e.right)| < |Print(e)|
  {
  }

  lemma {:induction false} SoundConditional(c: SelectorComponent, p: Program, w: World, scope: Scope, e: Expr, resolving: set<string>)
    requires Trusted(c, p) && p.worlds(w) && WellFormed(e) && Unshadowed(c, p, scope, e) && e.Conditional?
    ensures Covers(ResolveCore(c, Print(e), resolving), Evaluate(w, scope, e))
    decreases |Keys(c) - resolving|, 0, |Print(e)|, 0
  {
    var t, f := Print(e.whenTrue), Print(e.whenFalse);
    PartsShrink(e);
    Sound(c, p, w, scope, " ", e.whenTrue, " ", resolving);
    Sound(c, p, w, scope, " ", e.whenFalse, "", resolving);
    assert " " + f + "" == " " + f;
    MergeCovers(Resolve(c, " " + t + " ", resolving), Resolve(c, " " + f, resolving), Evaluate(w, scope, e));
    CoreConditional(c, e, resolving);
  }

  lemma CoreConditional(c: SelectorComponent, e: Expr, resolving: set<string>)
    requires WellFormed(e) && e.Conditional?
    ensures ResolveCore(c, Print(e), resolving)
         == Merge(Resolve(c, " " + Print(e.whenTrue) + " ", resolving), Resolve(c, " " + Print(e.whenFalse), resolving))
  {
    PrintNonEmpty(e);
    StringReads(e);
    ConstantReads(e);
    ConditionalSplits(e.test, e.whenTrue, e.whenFalse);
    SplitCore(c, Print(e), resolving, Print(e.whenTrue), Print(e.whenFalse));
  }

  lemma SplitCore(c: SelectorComponent, value: string, resolving: set<string>, whenTrue: string, whenFalse: string)
    requires value != "" && StaticString(value).None? && !IsConstant(value) && SplitsInto(value, whenTrue, whenFalse)
    ensures ResolveCore(c, value, resolving)
         == Merge(Resolve(c, " " + whenTrue + " ", resolving), Resolve(c, " " + whenFalse, resolving))
  {
  }

  lemma OperatorCore(c: SelectorComponent, value: string, resolving: set<string>, left: string, right: string)
    requires value != "" && StaticString(value).None? && !IsConstant(value) && SplitConditional(value).None?
    requires SplitOperator(value, "??") == Some((left, right))
          || (SplitOperator(value, "??").None? && SplitOperator(value, "||") == Some((left, right)))
    ensures ResolveCore(c, value, resolving) == Merge(Resolve(c, left, resolving), Resolve(c, right, resolving))
  {
  }

  lemma {:induction false} SoundOperands(c: SelectorComponent, p: Program, w: World, scope: Scope, e: Expr, left: Expr,
                                        right: Expr, resolving: set<string>)
    requires Trusted(c, p) && p.worlds(w) && WellFormed(left) && WellFormed(right)
    requires (e == Coalesce(left, right) || e == Either(left, right)) && Unshadowed(c, p, scope, e)
    ensures Covers(Merge(Resolve(c, Print(left), resolving), Resolve(c, Print(right), resolving)), Evaluate(w, scope, e))
    decreases |Keys(c) - resolving|, 0, |Print(e)|, 0
  {
    assert "" + Print(left) + "" == Print(left) && "" + Print(right) + "" == Print(right);
    PartsShrink(e);
    Sound(c, p, w, scope, "", left, "", resolving);
    Sound(c, p, w, scope, "", right, "", resolving);
    MergeCovers(Resolve(c, Print(left), resolving), Resolve(c, Print(right), resolving), Evaluate(w, scope, e));
  }

  lemma {:induction false} SoundCoalesce(c: SelectorComponent, p: Program, w: World, scope: Scope, e: Expr, resolving: set<string>)
    requires Trusted(c, p) && p.worlds(w) && WellFormed(e) && Unshadowed(c, p, scope, e) && e.Coalesce?
    ensures Covers(ResolveCore(c, Print(e), resolving), Evaluate(w, scope, e))
    decreases |Keys(c) - resolving|, 0, |Print(e)|, 1
  {
    PrintNonEmpty(e);
    StringReads(e);
    ConstantReads(e);
    NoConditional(e);
    CoalesceReads(e.left, e.right);
    OperatorCore(c, Print(e), resolving, Print(e.left), Print(e.right));
    SoundOperands(c, p, w, scope, e, e.left, e.right, resolving);
  }

  lemma {:induction false} SoundEither(c: SelectorComponent, p: Program, w: World, scope: Scope, e: Expr, resolving: set<string>)
    requires Trusted(c, p) && p.worlds(w) && WellFormed(e) && Unshadowed(c, p, scope, e) && e.Either?
    ensures Covers(ResolveCore(c, Print(e), resolving), Evaluate(w, scope, e))
    decreases |Keys(c) - resolving|, 0, |Print(e)|, 1
  {
    PrintNonEmpty(e);
    StringReads(e);
    ConstantReads(e);
    NoConditional(e);
    EitherReads(e.left, e.right);
    OperatorCore(c, Print(e), resolving, Print(e.left), Print(e.right));
    SoundOperands(c, p, w, scope, e, e.left, e.right, resolving);
  }

  lemma {:induction false} SoundUnit(c: SelectorComponent, p: Program, w: World, scope: Scope, e: Expr, resolving: set<string>)
    requires Trusted(c, p) && p.worlds(w) && WellFormed(e) && Unshadowed(c, p, scope, e) && Unit(e) && !e.Group?
    ensures Covers(ResolveCore(c, Print(e), resolving), Evaluate(w, scope, e))
    decreases |Keys(c) - resolving|, 0, 0, 1
  {
    hide SingleReference;
    PrintNonEmpty(e);
    StringReads(e);
    ConstantReads(e);
    NoConditional(e);
    UnitReads(e);
    assert CmsFits(c, w, e, scope);
    if e.Reference? {
      ReferenceReads(e.name, e.arguments, e.form);
      SoundReference(c, p, w, scope, e.name, e.arguments, e.form.qualified, resolving);
    } else if e.Spelled? {
      SoundReference(c, p, w, scope, e.name, e.arguments, e.qualified, resolving);
    } else if !e.Constantly? {
      OtherReferences(e);
    }
  }

  lemma {:induction false} SoundReference(c: SelectorComponent, p: Program, w: World, scope: Scope,
                                         name: string, arguments: Option<string>, qualified: bool,
                                         resolving: set<string>)
    requires Trusted(c, p) && p.worlds(w) && (!qualified ==> Own(c, p, scope, name))
    ensures Covers(ResolveReference(c, name, arguments.Some?, resolving), Refer(w, scope, name, arguments, qualified))
    decreases |Keys(c) - resolving|, 0, 0, 0
  {
    hide FindLocal, Keys;
    assert MemberFits(c, p, w, name, arguments) && BareFits(c, p, w, scope, name, arguments);
    var member := Referenced(c, name, arguments.Some?);
    if !(arguments.None? && FindLocal(c.locals, name).Some?) && member.Some? && Key(member.value) !in resolving {
      GuardGrows(c, resolving, member.value);
      SoundMember(c, p, member.value, w.member(name, arguments), resolving + {Key(member.value)});
    }
  }

  lemma {:induction false} SoundMember(c: SelectorComponent, p: Program, m: SelectorMember, v: Value, resolving: set<string>)
    requires Trusted(c, p) && m in c.members && ValueFits(p, m, v)
    ensures Covers(ResolveMember(c, m, resolving), v)
    decreases |Keys(c) - resolving|, 2, 0, 0
  {
    TypeCovers(ValueType(m), v);
    var source := if m.source != "" then Resolve(c, m.source, resolving) else NOTHING;
    if m.kind.DataMember? && source.found {
      AssignmentsFound(c, m.name, c.assignments, resolving, source);
    }
    if m.source != "" && !m.kind.DataMember? && !v.Undefined? {
      var w :| p.worlds(w) && v == Evaluate(w, Script(m.source), p.reading[m.source]);
      SoundText(c, p, w, m.source, resolving);
    }
    if m.returned != [] && m.returnsComplete {
      SoundReturns(c, p, m, v, resolving);
    }
    ReturnsStart(c, m, resolving, v);
    DefaultsOpen(c, m.name, c.props, resolving);
  }

  lemma {:induction false} SoundText(c: SelectorComponent, p: Program, w: World, text: string, resolving: set<string>)
    requires Trusted(c, p) && p.worlds(w) && text in p.reading
    ensures Covers(Resolve(c, text, resolving), Evaluate(w, Script(text), p.reading[text]))
    decreases |Keys(c) - resolving|, 1, 0, 0
  {
    var e := p.reading[text];
    assert "" + Print(e) + "" == text;
    Sound(c, p, w, Script(text), "", e, "", resolving);
  }

  lemma {:induction false} SoundReturns(c: SelectorComponent, p: Program, m: SelectorMember, v: Value, resolving: set<string>)
    requires Trusted(c, p) && ReturnFits(p, m.returned, v)
    ensures Covers(ResolveReturns(c, m.returned, resolving, Names([], true, m.returnsComplete)), v)
    decreases |Keys(c) - resolving|, 1, 1, 0
  {
    var w, text :| p.worlds(w) && text in m.returned && text in p.reading && v == Evaluate(w, Script(text), p.reading[text]);
    SoundText(c, p, w, text, resolving);
    var start := Names([], true, m.returnsComplete);
    if ResolveReturns(c, m.returned, resolving, start).complete {
      ReturnsList(c, m.returned, resolving, start, v);
      ReturnListed(c, m.returned, resolving, start, text, v);
    }
  }

  lemma ReturnsStart(c: SelectorComponent, m: SelectorMember, resolving: set<string>, v: Value)
    ensures var r := ResolveReturns(c, m.returned, resolving, Names([], true, m.returnsComplete));
            r.complete ==> m.returnsComplete && r.found
  {
    var start := Names([], true, m.returnsComplete);
    if ResolveReturns(c, m.returned, resolving, start).complete {
      ReturnsList(c, m.returned, resolving, start, v);
    }
  }

  lemma {:induction false} DefaultsOpen(c: SelectorComponent, name: string, rest: seq<PropDefault>, resolving: set<string>)
    ensures !ResolveDefault(c, name, rest, resolving).complete
    decreases |rest|
  {
    if rest != [] && (rest[0].name != name || rest[0].expression == "") {
      DefaultsOpen(c, name, rest[1..], resolving);
    }
  }

  /** Selector soundness: when resolveDynamicComponentNames answers complete for a selector in a
      template, every evaluation yields a listed name, null, undefined or false. */
  lemma CompleteAnswersAreSound(c: SelectorComponent, p: Program, e: Expr)
    requires Faithful(c, p) && Distinct(c, p) && WellFormed(e) && Unshadowed(c, p, Template, e)
    requires Resolve(c, Print(e), {}).complete
    ensures forall w :: p.worlds(w) ==> Listed(Resolve(c, Print(e), {}).names, Evaluate(w, Template, e))
  {
    hide Resolve, Evaluate, Print, Faithful, Distinct, WellFormed, Unshadowed;
    assert "" + Print(e) + "" == Print(e);
    forall w | p.worlds(w) ensures Listed(Resolve(c, Print(e), {}).names, Evaluate(w, Template, e)) {
      Sound(c, p, w, Template, "", e, "", {});
    }
  }
}
