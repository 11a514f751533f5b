/** Which names an answer of the selector analysis holds, complete or not: the literals at the
    leaves that the expression reaches (internal/admin/dynamic_component_resolution.go:240-379). */
module SelectorNames {
  import opened AdminModel
  import opened TextScan
  import opened TypeText
  import opened SelectorText
  import opened SelectorSyntax
  import opened SelectorReading
  import opened SelectorResolver
  import ComponentOverlay
  import opened SelectorTypes
  import opened SelectorSoundness

  /** The names reached, whether anything was found, and whether nothing was lost on the way. */
  datatype Reached = Reached(names: iset<string>, found: bool, complete: bool)

  const LOST := Reached(iset{}, false, false)

  /** Empty names are never suggested. */
  ghost function Filled(names: iset<string>): iset<string> {
    names - iset{""}
  }

  /** Of two operands, the names of both; found if either is, complete only if both are. */
  ghost function Both(a: Reached, b: Reached): Reached {
    Reached(a.names + b.names, a.found || b.found, a.found && b.found && a.complete && b.complete)
  }

  // ---- Types.

  /** The text between the quotes of a literal type. */
  predicate LiteralNames(alternative: string, name: string) {
    var t := Trim(alternative);
    QuotedText(t) && Trim(t[1..|t| - 1]) == name && name != ""
  }

  predicate Nameless(alternative: string) {
    var t := Trim(alternative);
    t == "null" || t == "undefined" || t == "false" || t == "never"
  }

  /** The type consists of named literals and of nothing to render. */
  ghost predicate NamesOnly(memberType: string) {
    Trim(memberType) != "" && forall alternative :: alternative in Split(Trim(memberType), '|') ==>
      Nameless(alternative) || exists name :: LiteralNames(alternative, name)
  }

  ghost function TypeNames(memberType: string): iset<string> {
    iset alternative, name | alternative in Split(Trim(memberType), '|') && LiteralNames(alternative, name) :: name
  }

  lemma LiteralNamesIff(alternative: string, name: string)
    ensures LiteralNames(alternative, name) <==> name != "" && TypeStringLiteral(Trim(alternative)) == name
  {
    TrimIdempotent(alternative);
  }

  lemma {:induction false} AlternativesNamed(alternatives: seq<string>, names: seq<string>)
    ensures var answer := NamesFromAlternatives(alternatives, names);
            var all := forall a :: a in alternatives ==> TypeStringLiteral(Trim(a)) != "" || NoName(Trim(a));
            && (answer.complete <==> all) && (answer.found <==> all)
            && (all ==> forall x :: x in answer.names <==> x in names || (x != "" && exists a :: a in alternatives && TypeStringLiteral(Trim(a)) == x))
            && (!all ==> answer.names == [])
  {
    if alternatives != [] {
      var name := TypeStringLiteral(Trim(alternatives[0]));
      var next := if name != "" then AppendUnique(names, [name]) else names;
      AlternativesNamed(alternatives[1..], next);
      forall x ensures x in next <==> x in names || (x != "" && x == name) {
        AppendUniqueMember(names, [name], x);
      }
      assert forall a :: a in alternatives <==> a == alternatives[0] || a in alternatives[1..];
    }
  }

  lemma NamesOnlyIff(memberType: string)
    ensures NamesOnly(memberType) <==> Trim(memberType) != "" && forall a :: a in Split(Trim(memberType), '|') ==>
              TypeStringLiteral(Trim(a)) != "" || NoName(Trim(a))
  {
    forall a | a in Split(Trim(memberType), '|')
      ensures (exists name :: LiteralNames(a, name)) <==> TypeStringLiteral(Trim(a)) != ""
    {
      LiteralNamesIff(a, TypeStringLiteral(Trim(a)));
      forall name ensures LiteralNames(a, name) ==> TypeStringLiteral(Trim(a)) != "" {
        LiteralNamesIff(a, name);
      }
    }
  }

  lemma TypeNamesMember(memberType: string, x: string)
    ensures x in TypeNames(memberType) <==>
            x != "" && exists a :: a in Split(Trim(memberType), '|') && TypeStringLiteral(Trim(a)) == x
  {
    forall a ensures LiteralNames(a, x) <==> x != "" && TypeStringLiteral(Trim(a)) == x {
      LiteralNamesIff(a, x);
    }
  }

  /** Names are read from a type exactly when it consists of named literals and nothing to render,
      and then exactly the literals. */
  lemma TypeNamesIff(memberType: string)
    ensures var answer := NamesFromType(memberType);
            && (answer.complete <==> NamesOnly(memberType)) && (answer.found <==> NamesOnly(memberType))
            && (forall x :: x in answer.names <==> NamesOnly(memberType) && x in TypeNames(memberType))
  {
    hide Split, Trim, NamesOnly, TypeNames, TypeStringLiteral, NoName;
    NamesOnlyIff(memberType);
    forall x ensures x in TypeNames(memberType) <==>
                     x != "" && exists a :: a in Split(Trim(memberType), '|') && TypeStringLiteral(Trim(a)) == x {
      TypeNamesMember(memberType, x);
    }
    if Trim(memberType) != "" {
      AlternativesNamed(Split(Trim(memberType), '|'), []);
    }
  }

  // ---- Expressions.

  /** The expression a text of a member spells. */
  ghost function Spells(c: SelectorComponent, reading: map<string, Expr>, text: string, guard: set<string>): Reached
    decreases |Keys(c) - guard|, 2
  {
    if text in reading then Reaches(c, reading, reading[text], guard) else LOST
  }

  /** What an expression reaches: its literals, both operands and branches, the names registered for
      it, a local component, or what the member it names reaches, unless that is reached already. */
  ghost function Reaches(c: SelectorComponent, reading: map<string, Expr>, e: Expr, guard: set<string>): Reached
    decreases |Keys(c) - guard|, 1, e
  {
    match e
    case Group(inner) => Reaches(c, reading, inner, guard)
    case Coalesce(left, right) => Both(Reaches(c, reading, left, guard), Reaches(c, reading, right, guard))
    case Either(left, right) => Both(Reaches(c, reading, left, guard), Reaches(c, reading, right, guard))
    case Conditional(_, whenTrue, whenFalse) =>
      Both(Reaches(c, reading, whenTrue, guard), Reaches(c, reading, whenFalse, guard))
    case Constantly(_) => Reached(iset{}, true, true)
    case Text(_, value) => if value != "" then Reached(iset{value}, true, true) else Claimed(c, Print(e), LOST)
    case Reference(name, arguments, _) => Claimed(c, Print(e), NameReaches(c, reading, name, arguments.Some?, guard))
    case Spelled(_, name, arguments, _) => Claimed(c, Print(e), NameReaches(c, reading, name, arguments.Some?, guard))
    case Opaque(_) => Claimed(c, Print(e), LOST)
  }

  ghost function Claimed(c: SelectorComponent, text: string, otherwise: Reached): Reached {
    if Registered(c, text) then Reached(Filled(iset x | x in c.cms[text]), true, true) else otherwise
  }

  /** The content-management registry knows names for the text. */
  predicate Registered(c: SelectorComponent, text: string) {
    text in c.cms && exists x :: x in c.cms[text] && x != ""
  }

  ghost function NameReaches(c: SelectorComponent, reading: map<string, Expr>, name: string, called: bool, guard: set<string>): Reached
    decreases |Keys(c) - guard|, 0
  {
    if !called && FindLocal(c.locals, name).Some? then
      Reached(Filled(iset{FindLocal(c.locals, name).value.name}), true, true)
    else
      var member := Referenced(c, name, called);
      if member.None? || Key(member.value) in guard then LOST
      else
        GuardGrows(c, guard, member.value);
        MemberReaches(c, reading, member.value, guard + {Key(member.value)})
  }

  /** The member's type where it names everything; the initial value and every write of data; the
      source; every returned expression; the first default of a prop. */
  ghost function MemberReaches(c: SelectorComponent, reading: map<string, Expr>, m: SelectorMember, guard: set<string>): Reached
    decreases |Keys(c) - guard|, 3
  {
    var source := if m.source != "" then Spells(c, reading, m.source, guard) else LOST;
    if NamesOnly(ValueType(m)) then Reached(TypeNames(ValueType(m)), true, true)
    else if m.kind.DataMember? && (source.found || exists a :: Writes(c, m, a) && Spells(c, reading, a.expression, guard).found) then
      Reached(Filled(source.names + iset a, x | Writes(c, m, a) && x in Spells(c, reading, a.expression, guard).names :: x), true, false)
    else if source.found then source
    else if m.returned != [] then
      Reached(Filled(iset t, x | t in m.returned && x in Spells(c, reading, t, guard).names :: x), true,
              m.returnsComplete && forall t :: t in m.returned ==> Known(Spells(c, reading, t, guard)))
    else if m.kind.PropMember? then
      Reached(Filled(iset i, x | IsDefault(c.props, m.name, i) && x in Spells(c, reading, c.props[i].expression, guard).names :: x),
              exists i :: IsDefault(c.props, m.name, i) && Spells(c, reading, c.props[i].expression, guard).found, false)
    else LOST
  }

  predicate Known(r: Reached) {
    r.found && r.complete
  }

  predicate Writes(c: SelectorComponent, m: SelectorMember, a: Assignment) {
    a in c.assignments && a.target == m.name && a.expression != ""
  }

  /** The first default that the props give to the name. */
  predicate IsDefault(props: seq<PropDefault>, name: string, i: int) {
    && 0 <= i < |props| && props[i].name == name && props[i].expression != ""
    && forall j :: 0 <= j < i ==> props[j].name != name || props[j].expression == ""
  }

  /** Every text of the component spells an expression. */
  ghost predicate Readable(c: SelectorComponent, reading: map<string, Expr>) {
    && (forall text :: text in reading ==> WellFormed(reading[text]) && Print(reading[text]) == text)
    && (forall m :: m in c.members ==> (m.source != "" ==> m.source in reading) && forall t :: t in m.returned && t != "" ==> t in reading)
    && (forall a :: a in c.assignments && a.expression != "" ==> a.expression in reading)
    && (forall d :: d in c.props && d.expression != "" ==> d.expression in reading)
  }

  // ---- The analysis reaches exactly that.

  ghost predicate Shows(answer: Names, r: Reached) {
    && answer.found == r.found && answer.complete == r.complete
    && forall x :: x in r.names <==> x != "" && x in answer.names
  }

  lemma MergeShows(left: Names, right: Names, a: Reached, b: Reached)
    requires Shows(left, a) && Shows(right, b)
    ensures Shows(Merge(left, right), Both(a, b))
  {
    forall x ensures x in Merge(left, right).names <==> x in left.names || (x != "" && x in right.names) {
      AppendUniqueMember(left.names, right.names, x);
    }
  }

  lemma {:induction false} ExpressionReaches(c: SelectorComponent, reading: map<string, Expr>, left: string, e: Expr, right: string,
                                            guard: set<string>)
    requires Readable(c, reading) && WellFormed(e) && AllSpace(left) && AllSpace(right)
    ensures Shows(Resolve(c, left + Print(e) + right, guard), Reaches(c, reading, e, guard))
    decreases |Keys(c) - guard|, 0, |Print(e)|, 3
  {
    CorePrint(left, e, right);
    CoreShorter(e);
    CoreReaches(c, reading, CoreOf(e), guard);
    ReachesCore(c, reading, e, guard);
  }

  lemma {:induction false} CoreShorter(e: Expr)
    ensures |Print(CoreOf(e))| <= |Print(e)|
  {
    if e.Group? {
      CoreShorter(e.inner);
    }
  }

  lemma {:induction false} ReachesCore(c: SelectorComponent, reading: map<string, Expr>, e: Expr, guard: set<string>)
    ensures Reaches(c, reading, CoreOf(e), guard) == Reaches(c, reading, e, guard)
  {
    if e.Group? {
      ReachesCore(c, reading, e.inner, guard);
    }
  }

  lemma {:induction false} CoreReaches(c: SelectorComponent, reading: map<string, Expr>, e: Expr, guard: set<string>)
    requires Readable(c, reading) && WellFormed(e) && !e.Group?
    ensures Shows(ResolveCore(c, Print(e), guard), Reaches(c, reading, e, guard))
    decreases |Keys(c) - guard|, 0, |Print(e)|, 2
  {
    hide Shows, Resolve, ResolveCore;
    PrintNonEmpty(e);
    if e.Conditional? {
      var t, f := Print(e.whenTrue), Print(e.whenFalse);
      PartsShrink(e);
      ExpressionReaches(c, reading, " ", e.whenTrue, " ", guard);
      ExpressionReaches(c, reading, " ", e.whenFalse, "", guard);
      assert " " + f + "" == " " + f;
      CoreConditional(c, e, guard);
      MergeShows(Resolve(c, " " + t + " ", guard), Resolve(c, " " + f, guard),
                 Reaches(c, reading, e.whenTrue, guard), Reaches(c, reading, e.whenFalse, guard));
    } else if e.Coalesce? || e.Either? {
      var l, r := Print(e.left), Print(e.right);
      PartsShrink(e);
      ExpressionReaches(c, reading, "", e.left, "", guard);
      ExpressionReaches(c, reading, "", e.right, "", guard);
      assert "" + l + "" == l && "" + r + "" == r;
      OperandsOf(c, e, guard);
      MergeShows(Resolve(c, l, guard), Resolve(c, r, guard), Reaches(c, reading, e.left, guard), Reaches(c, reading, e.right, guard));
    } else {
      UnitReaches(c, reading, e, guard);
    }
  }

  lemma OperandsOf(c: SelectorComponent, e: Expr, guard: set<string>)
    requires WellFormed(e) && (e.Coalesce? || e.Either?)
    ensures ResolveCore(c, Print(e), guard) == Merge(Resolve(c, Print(e.left), guard), Resolve(c, Print(e.right), guard))
  {
    PrintNonEmpty(e);
    StringReads(e);
    ConstantReads(e);
    NoConditional(e);
    if e.Coalesce? {
      CoalesceReads(e.left, e.right);
    } else {
      EitherReads(e.left, e.right);
    }
    OperatorCore(c, Print(e), guard, Print(e.left), Print(e.right));
  }

  lemma RegisteredIff(c: SelectorComponent, text: string)
    requires text in c.cms
    ensures Registered(c, text) <==> AppendUnique([], c.cms[text]) != []
    ensures forall x :: x in AppendUnique([], c.cms[text]) <==> x != "" && x in c.cms[text]
  {
    forall x ensures x in AppendUnique([], c.cms[text]) <==> x != "" && x in c.cms[text] {
      AppendUniqueMember([], c.cms[text], x);
    }
    if AppendUnique([], c.cms[text]) != [] {
      assert AppendUnique([], c.cms[text])[0] in AppendUnique([], c.cms[text]);
    }
  }

  /** What is left for the registry and the reference. */
  lemma LookedUp(c: SelectorComponent, t: string, guard: set<string>)
    requires t != "" && StaticString(t).None? && !IsConstant(t)
    requires SplitConditional(t).None? && SplitOperator(t, "??").None? && SplitOperator(t, "||").None?
    ensures ResolveCore(c, t, guard)
         == if Registered(c, t) then Names(AppendUnique([], c.cms[t]), true, true)
            else if SingleReference(t).None? then NOTHING
            else ResolveReference(c, SingleReference(t).value.name, SingleReference(t).value.called, guard)
  {
    if t in c.cms {
      RegisteredIff(c, t);
    }
  }

  lemma ClaimedShows(c: SelectorComponent, t: string, answer: Names, otherwise: Reached)
    requires if Registered(c, t) then answer == Names(AppendUnique([], c.cms[t]), true, true) else Shows(answer, otherwise)
    ensures Shows(answer, Claimed(c, t, otherwise))
  {
    if t in c.cms {
      RegisteredIff(c, t);
    }
  }

  lemma {:induction false} UnitReaches(c: SelectorComponent, reading: map<string, Expr>, e: Expr, guard: set<string>)
    requires Readable(c, reading) && WellFormed(e) && Unit(e) && !e.Group?
    ensures Shows(ResolveCore(c, Print(e), guard), Reaches(c, reading, e, guard))
    decreases |Keys(c) - guard|, 0, 0, 1
  {
    hide Resolve, ResolveReference, NameReaches, Registered, Claimed, SingleReference, Print;
    var t := Print(e);
    PrintNonEmpty(e);
    StringReads(e);
    ConstantReads(e);
    NoConditional(e);
    UnitReads(e);
    if e.Constantly? || (e.Text? && e.value != "") {
      TakenAtWord(c, reading, e, guard);
    } else {
      hide ResolveCore;
      LookedUp(c, t, guard);
      if e.Reference? {
        ReferenceReads(e.name, e.arguments, e.form);
        ReferenceReaches(c, reading, e.name, e.arguments.Some?, guard);
        ClaimedShows(c, t, ResolveCore(c, t, guard), NameReaches(c, reading, e.name, e.arguments.Some?, guard));
      } else if e.Spelled? {
        assert t == e.source by { SpelledPrints(e); }
        ReferenceReaches(c, reading, e.name, e.arguments.Some?, guard);
        ClaimedShows(c, t, ResolveCore(c, t, guard), NameReaches(c, reading, e.name, e.arguments.Some?, guard));
      } else {
        OtherReferences(e);
        ClaimedShows(c, t, ResolveCore(c, t, guard), LOST);
      }
    }
  }

  lemma SpelledPrints(e: Expr)
    requires e.Spelled?
    ensures Print(e) == e.source
  {
  }

  lemma TakenAtWord(c: SelectorComponent, reading: map<string, Expr>, e: Expr, guard: set<string>)
    requires WellFormed(e) && (e.Constantly? || (e.Text? && e.value != ""))
    ensures Shows(ResolveCore(c, Print(e), guard), Reaches(c, reading, e, guard))
  {
    hide Resolve, ResolveReference;
    PrintNonEmpty(e);
    StringReads(e);
    ConstantReads(e);
  }

  lemma {:induction false} ReferenceReaches(c: SelectorComponent, reading: map<string, Expr>, name: string, called: bool,
                                           guard: set<string>)
    requires Readable(c, reading)
    ensures Shows(ResolveReference(c, name, called, guard), NameReaches(c, reading, name, called, guard))
    decreases |Keys(c) - guard|, 0, 0, 0
  {
    hide ResolveMember, MemberReaches;
    var member := Referenced(c, name, called);
    if !(!called && FindLocal(c.locals, name).Some?) && member.Some? && Key(member.value) !in guard {
      GuardGrows(c, guard, member.value);
      MemberShows(c, reading, member.value, guard + {Key(member.value)});
    }
  }

  lemma {:induction false} TextShows(c: SelectorComponent, reading: map<string, Expr>, text: string, guard: set<string>)
    requires Readable(c, reading) && (text != "" ==> text in reading)
    ensures Shows(Resolve(c, text, guard), Spells(c, reading, text, guard))
    decreases |Keys(c) - guard|, 1, 0, 0
  {
    if text in reading {
      assert "" + Print(reading[text]) + "" == text;
      ExpressionReaches(c, reading, "", reading[text], "", guard);
    }
  }

  /** Data: the initial value and every write, in any order. */
  lemma {:induction false} WritesShow(c: SelectorComponent, reading: map<string, Expr>, m: SelectorMember, guard: set<string>,
                                     rest: seq<Assignment>, result: Names)
    requires Readable(c, reading) && forall a :: a in rest ==> a in c.assignments
    ensures var answer := ResolveAssignments(c, m.name, rest, guard, result);
            && (answer.found <==> result.found || exists a :: a in rest && Writes(c, m, a) && Spells(c, reading, a.expression, guard).found)
            && forall x :: x != "" ==> (x in answer.names <==>
                 x in result.names || exists a :: a in rest && Writes(c, m, a) && x in Spells(c, reading, a.expression, guard).names)
    decreases |Keys(c) - guard|, 1, |rest|, 1
  {
    hide Resolve, Spells;
    if rest != [] {
      var a := rest[0];
      assert a in c.assignments && forall b :: b in rest <==> b == a || b in rest[1..];
      var next := result;
      if a.target == m.name && a.expression != "" {
        var resolved := Resolve(c, a.expression, guard);
        TextShows(c, reading, a.expression, guard);
        next := Merge(result, resolved);
        forall x ensures x in next.names <==> x in result.names || (x != "" && x in resolved.names) {
          AppendUniqueMember(result.names, resolved.names, x);
        }
      }
      WritesShow(c, reading, m, guard, rest[1..], next);
    }
  }

  lemma {:induction false} ReturnsShow(c: SelectorComponent, reading: map<string, Expr>, guard: set<string>, rest: seq<string>, result: Names)
    requires Readable(c, reading) && forall t :: t in rest && t != "" ==> t in reading
    ensures var answer := ResolveReturns(c, rest, guard, result);
            && answer.found == result.found
            && (answer.complete <==> result.complete && forall t :: t in rest ==> Known(Spells(c, reading, t, guard)))
            && forall x :: x != "" ==> (x in answer.names <==> x in result.names || exists t :: t in rest && x in Spells(c, reading, t, guard).names)
    decreases |Keys(c) - guard|, 1, |rest|, 1
  {
    hide Resolve, Spells;
    if rest != [] {
      var resolved := Resolve(c, rest[0], guard);
      TextShows(c, reading, rest[0], guard);
      var next := WithReturn(result, resolved);
      forall x ensures x in next.names <==> x in result.names || (x != "" && x in resolved.names) {
        AppendUniqueMember(result.names, resolved.names, x);
      }
      assert forall t :: t in rest <==> t == rest[0] || t in rest[1..];
      ReturnsShow(c, reading, guard, rest[1..], next);
      assert resolved.found && resolved.complete <==> Known(Spells(c, reading, rest[0], guard));
      var answer := ResolveReturns(c, rest, guard, result);
      forall x | x != ""
        ensures x in answer.names <==> x in result.names || exists t :: t in rest && x in Spells(c, reading, t, guard).names
      {
        assert x in resolved.names <==> x in Spells(c, reading, rest[0], guard).names;
        assert rest[0] in rest;
        if t :| t in rest && x in Spells(c, reading, t, guard).names {
          assert t == rest[0] || t in rest[1..];
        }
      }
      assert (forall t :: t in rest ==> Known(Spells(c, reading, t, guard)))
        <==> Known(Spells(c, reading, rest[0], guard)) && forall t :: t in rest[1..] ==> Known(Spells(c, reading, t, guard)) by {
        assert rest[0] in rest;
      }
    }
  }

  /** A prop: its first default, from position k on. */
  lemma {:induction false} DefaultShows(c: SelectorComponent, reading: map<string, Expr>, name: string, guard: set<string>, k: nat)
    requires Readable(c, reading) && k <= |c.props|
    requires forall j :: 0 <= j < k ==> c.props[j].name != name || c.props[j].expression == ""
    ensures var answer := ResolveDefault(c, name, c.props[k..], guard);
            && !answer.complete
            && (answer.found <==> exists i :: IsDefault(c.props, name, i) && Spells(c, reading, c.props[i].expression, guard).found)
            && forall x :: x != "" ==> (x in answer.names <==>
                 exists i :: IsDefault(c.props, name, i) && x in Spells(c, reading, c.props[i].expression, guard).names)
    decreases |Keys(c) - guard|, 1, |c.props| - k, 1
  {
    hide Resolve, Spells;
    if k == |c.props| {
      assert forall i :: !IsDefault(c.props, name, i);
    } else {
      var p := c.props[k];
      assert c.props[k..][0] == p && c.props[k..][1..] == c.props[k + 1..];
      if p.name != name || p.expression == "" {
        DefaultShows(c, reading, name, guard, k + 1);
      } else {
        assert p in c.props;
        TextShows(c, reading, p.expression, guard);
        assert IsDefault(c.props, name, k) && forall i :: IsDefault(c.props, name, i) ==> i == k;
      }
    }
  }

  lemma {:induction false} MemberShows(c: SelectorComponent, reading: map<string, Expr>, m: SelectorMember, guard: set<string>)
    requires Readable(c, reading) && m in c.members
    ensures Shows(ResolveMember(c, m, guard), MemberReaches(c, reading, m, guard))
    decreases |Keys(c) - guard|, 2, 0, 0
  {
    hide Resolve, Spells, ResolveAssignments, ResolveReturns, ResolveDefault, NamesFromType, NamesOnly, TypeNames, ResolveMember,
         MemberReaches;
    TypeNamesIff(ValueType(m));
    if NamesOnly(ValueType(m)) {
      TypedShows(c, reading, m, guard);
    } else {
      OpenShows(c, reading, m, guard);
    }
  }

  lemma TypedShows(c: SelectorComponent, reading: map<string, Expr>, m: SelectorMember, guard: set<string>)
    requires NamesOnly(ValueType(m))
    ensures Shows(ResolveMember(c, m, guard), MemberReaches(c, reading, m, guard))
  {
    hide Resolve, Spells, ResolveAssignments, ResolveReturns, ResolveDefault, NamesFromType, NamesOnly, TypeNames;
    TypeNamesIff(ValueType(m));
    assert "" !in TypeNames(ValueType(m)) by { TypeNamesMember(ValueType(m), ""); }
  }

  lemma {:induction false} OpenShows(c: SelectorComponent, reading: map<string, Expr>, m: SelectorMember, guard: set<string>)
    requires Readable(c, reading) && m in c.members && !NamesOnly(ValueType(m))
    ensures Shows(ResolveMember(c, m, guard), MemberReaches(c, reading, m, guard))
    decreases |Keys(c) - guard|, 1, |c.assignments| + |m.returned| + |c.props| + 1, 2
  {
    hide Resolve, Spells, ResolveAssignments, ResolveReturns, ResolveDefault, NamesFromType, NamesOnly, TypeNames;
    TypeNamesIff(ValueType(m));
    if m.source != "" {
      TextShows(c, reading, m.source, guard);
    }
    var source := if m.source != "" then Resolve(c, m.source, guard) else NOTHING;
    WritesShow(c, reading, m, guard, c.assignments, source);
    ReturnsShow(c, reading, guard, m.returned, Names([], true, m.returnsComplete));
    assert c.props[0..] == c.props;
    DefaultShows(c, reading, m.name, guard, 0);
    WrittenShows(c, reading, m, guard, source);
    var answer, reached := ResolveMember(c, m, guard), MemberReaches(c, reading, m, guard);
    assert answer.found == reached.found;
    assert answer.complete == reached.complete;
    forall x ensures x in reached.names <==> x != "" && x in answer.names {
    }
  }

  /** The names and `found` of written data, without the loop over the assignments. */
  lemma {:induction false} WrittenShows(c: SelectorComponent, reading: map<string, Expr>, m: SelectorMember, guard: set<string>, source: Names)
    requires Readable(c, reading)
    ensures var answer := ResolveAssignments(c, m.name, c.assignments, guard, source);
            && (answer.found <==> source.found || exists a :: Writes(c, m, a) && Spells(c, reading, a.expression, guard).found)
            && forall x :: x != "" ==> (x in answer.names <==>
                 x in source.names || exists a :: Writes(c, m, a) && x in Spells(c, reading, a.expression, guard).names)
    decreases |Keys(c) - guard|, 1, |c.assignments|, 2
  {
    hide Resolve, Spells, ResolveAssignments;
    WritesShow(c, reading, m, guard, c.assignments, source);
    assert forall a :: Writes(c, m, a) <==> a in c.assignments && Writes(c, m, a);
  }

  /** The names of an answer, complete or not, are exactly the literals that the selector reaches, and
      it is found and complete exactly when something is found and nothing is lost on the way. */
  lemma AnswersReach(c: SelectorComponent, reading: map<string, Expr>, e: Expr)
    requires Readable(c, reading) && WellFormed(e)
    ensures var answer, reached := Resolve(c, Print(e), {}), Reaches(c, reading, e, {});
            && (answer.found <==> reached.found) && (answer.complete <==> reached.complete)
            && forall x :: x != "" ==> (x in answer.names <==> x in reached.names)
  {
    hide Resolve, Reaches;
    assert "" + Print(e) + "" == Print(e);
    ExpressionReaches(c, reading, "", e, "", {});
  }

  // ---- Which of several entries of a name is meant, and in what order names are listed.

  predicate FirstOf<T>(list: seq<T>, test: T -> bool, i: int) {
    0 <= i < |list| && test(list[i]) && forall j :: 0 <= j < i ==> !test(list[j])
  }

  /** The name is the entry's symbol, or its tag, or spells its tag in kebab case. */
  predicate Fits(l: LocalEntry, name: string) {
    l.symbol == name || l.name in {name, ComponentOverlay.CamelToKebab(name)}
  }

  /** The first local component that the name fits. */
  lemma {:induction false} LocalIsFirst(locals: seq<LocalEntry>, name: string, l: LocalEntry)
    ensures FindLocal(locals, name) == Some(l) <==>
            exists i :: FirstOf(locals, (x: LocalEntry) => Fits(x, name), i) && locals[i] == l
  {
    if locals != [] {
      LocalIsFirst(locals[1..], name, l);
      FirstBehind(locals, (x: LocalEntry) => Fits(x, name), l);
    }
  }

  lemma FirstBehind<T>(list: seq<T>, test: T -> bool, x: T)
    requires list != []
    ensures (exists i :: FirstOf(list, test, i) && list[i] == x) <==>
            if test(list[0]) then x == list[0] else exists i :: FirstOf(list[1..], test, i) && list[1..][i] == x
  {
    if test(list[0]) {
      assert FirstOf(list, test, 0);
    } else {
      if i :| FirstOf(list, test, i) && list[i] == x {
        assert FirstOf(list[1..], test, i - 1) && list[1..][i - 1] == x;
      }
      if i :| FirstOf(list[1..], test, i) && list[1..][i] == x {
        assert forall j :: 0 < j <= i ==> list[j] == list[1..][j - 1];
        assert FirstOf(list, test, i + 1) && list[i + 1] == x;
      }
    }
  }

  lemma {:induction false} FoundIsFirst(members: seq<SelectorMember>, name: string, m: SelectorMember)
    ensures Find(members, name) == Some(m) <==>
            exists i :: FirstOf(members, (x: SelectorMember) => x.name == name, i) && members[i] == m
  {
    if members != [] {
      FoundIsFirst(members[1..], name, m);
      FirstBehind(members, (x: SelectorMember) => x.name == name, m);
    }
  }

  /** The first member of the name, if it is a method exactly when it is called. */
  lemma MeantIsFirst(c: SelectorComponent, name: string, called: bool, m: SelectorMember)
    ensures Referenced(c, name, called) == Some(m) <==>
            (exists i :: FirstOf(c.members, (x: SelectorMember) => x.name == name, i) && c.members[i] == m)
            && (m.kind == MethodMember <==> called)
  {
    FoundIsFirst(c.members, name, m);
  }

  /** Old names stay in front; new ones follow in the order they are first met. */
  lemma {:induction false} NamesInOrder(values: seq<string>, additions: seq<string>)
    ensures var r := AppendUnique(values, additions);
            && values <= r
            && forall y :: |values| <= y < |r| ==> r[y] !in r[..y] && FirstIn(additions, r[..y], r[y])
  {
    if additions != [] {
      var init, x := additions[..|additions| - 1], additions[|additions| - 1];
      var before, r := AppendUnique(values, init), AppendUnique(values, additions);
      NamesInOrder(values, init);
      assert additions == init + [x];
      forall y | |values| <= y < |r| ensures r[y] !in r[..y] && FirstIn(additions, r[..y], r[y]) {
        if y < |before| {
          assert r[..y] == before[..y] && r[y] == before[y];
          var p :| 0 <= p < |init| && init[p] == r[y] && forall q :: 0 <= q < p ==> init[q] == "" || init[q] in r[..y];
          assert additions[p] == r[y];
        } else {
          assert r[..y] == before;
          forall q | 0 <= q < |init| ensures additions[q] == "" || additions[q] in before {
            AppendUniqueMember(values, init, init[q]);
          }
        }
      }
    }
  }

  /** Some place of the name has nothing before it but earlier names. */
  predicate FirstIn(additions: seq<string>, earlier: seq<string>, name: string) {
    exists p :: 0 <= p < |additions| && additions[p] == name && forall q :: 0 <= q < p ==> additions[q] == "" || additions[q] in earlier
  }
}
