/** What the type resolver's guarantees need: finitely many calls, stable substitutions, and
    declarations that mention no name only their callers bound
    (internal/admin/type_resolver.go:75-132 and 235-305). */
module TypeWitnesses {
  import opened AdminModel
  import opened TypeResolver
  import opened TypeUnfolding

  const TYPE_T := TypeTree.Named("T", [])

  // ---- Self-growing aliases.

  lemma {:induction false} SubstituteGrows(t: TypeTree, sub: Substitution)
    ensures Size(Substitute(t, sub)) >= Size(t)
    decreases t, 0
  {
    match t
    case Union(bs) => SubstituteAllGrows(bs, sub);
    case Intersection(bs) => SubstituteAllGrows(bs, sub);
    case Wrapper(_, inner) => SubstituteGrows(inner, sub);
    case Selection(_, source, keys) =>
      SubstituteGrows(source, sub);
      SubstituteGrows(keys, sub);
    case Named(_, arguments) => if arguments != [] { SubstituteAllGrows(arguments, sub); }
    case _ =>
  }

  lemma {:induction false} SubstituteAllGrows(ts: seq<TypeTree>, sub: Substitution)
    ensures SizeAll(SubstituteAll(ts, sub)) >= SizeAll(ts)
    decreases ts, 1
  {
    if ts != [] {
      SubstituteGrows(ts[0], sub);
      SubstituteAllGrows(ts[1..], sub);
      assert SubstituteAll(ts, sub)[1..] == SubstituteAll(ts[1..], sub);
    }
  }

  lemma OneParameter(parameter: string, argument: TypeTree, sub: Substitution)
    ensures ChildSubstitution([parameter], [argument], sub) == sub[parameter := Substitute(argument, sub)]
  {
    var parameters: seq<string> := [parameter];
    assert parameters[..|parameters| - 1] == [];
    assert ChildSubstitution([], [argument], sub) == sub;
  }

  function Boxed(t: TypeTree): TypeTree {
    TypeTree.Named("Box", [t])
  }

  /** `type Grow<T> = Grow<Box<T>>` */
  predicate DeclaresGrow(env: TypeEnvironment, context: string) {
    && (context, "Grow") in env.declarations
    && env.declarations[(context, "Grow")]
       == Located(Declaration(["T"], [], [], Some(TypeTree.Named("Grow", [Boxed(TYPE_T)])), false, false), context)
  }

  predicate GrowCall(call: Call, context: string) {
    call.DeclarationCall? && call.context == context && call.name == "Grow" && |call.arguments| == 1
  }

  function Weight(call: Call): nat {
    if call.DeclarationCall? then SizeAll(call.arguments) else 0
  }

  lemma {:induction false} Heaviest(calls: set<Call>) returns (call: Call)
    requires calls != {}
    ensures call in calls && forall other :: other in calls ==> Weight(other) <= Weight(call)
  {
    call :| call in calls;
    if calls != {call} {
      var other := Heaviest(calls - {call});
      if Weight(other) > Weight(call) {
        call := other;
      }
    }
  }

  /** Each call of the alias demands one with a larger argument. */
  lemma NextGrow(env: TypeEnvironment, universe: set<Call>, context: string, call: Call) returns (next: Call)
    requires DeclaresGrow(env, context) && Closed(env, universe) && call in universe && GrowCall(call, context)
    ensures next in universe && GrowCall(next, context) && Weight(next) > Weight(call)
  {
    var argument := call.arguments[0];
    assert call.arguments == [argument];
    OneParameter("T", argument, call.sub);
    var child := ChildSubstitution(["T"], call.arguments, call.sub);
    var alias := TypeTree.Named("Grow", [Boxed(TYPE_T)]);
    assert DeclarationClosed(env, universe, call);
    assert alias in Children(env.declarations[(context, "Grow")].declaration);
    var grown := Substitute(argument, call.sub);
    GrowSubstituted(child, grown);
    next := DeclarationCall(context, "Grow", [Boxed(grown)], child);
    SubstituteGrows(argument, call.sub);
    SizeOne(argument);
    SizeOne(Boxed(grown));
    SizeOne(grown);
  }

  lemma SizeOne(t: TypeTree)
    ensures SizeAll([t]) == Size(t)
  {
    assert [t][1..] == [];
  }

  lemma GrowSubstituted(child: Substitution, grown: TypeTree)
    requires "T" in child && child["T"] == grown
    ensures Substitute(TypeTree.Named("Grow", [Boxed(TYPE_T)]), child) == TypeTree.Named("Grow", [Boxed(grown)])
  {
    assert [TYPE_T][1..] == [] && [Boxed(TYPE_T)][1..] == [];
    assert Substitute(Boxed(TYPE_T), child) == Boxed(grown);
  }

  /** Finiteness is needed: no finite universe closes over a self-growing alias, whose keys never
      repeat and so are never cut by the guard. */
  lemma SelfGrowingHasNoUniverse(env: TypeEnvironment, universe: set<Call>, context: string, call: Call)
    requires DeclaresGrow(env, context) && call in universe && GrowCall(call, context)
    ensures !Closed(env, universe)
  {
    if Closed(env, universe) {
      var growing := set other | other in universe && GrowCall(other, context);
      assert call in growing;
      var heaviest := Heaviest(growing);
      var next := NextGrow(env, universe, context, heaviest);
    }
  }

  // ---- Unstable substitutions.

  /** The substitution a generic alias `type Id<T> = T` gets when it is applied to `T | X`, where
      the caller has a T of its own. */
  function Unstable(x: TypeTree): Substitution {
    ChildSubstitution(["T"], [Union([TYPE_T, x])], map[])
  }

  /** Stability is needed: resolving T under that substitution asks for T under the same
      substitution again, with no declaration in between for the guard to notice. */
  lemma UnstableReenters(x: TypeTree)
    ensures !Stable(Unstable(x))
    ensures Substitute(TYPE_T, Unstable(x)) == Union([TYPE_T, x])
  {
    UnstableIs(x);
    assert "T" in Free(Union([TYPE_T, x])) by {
      assert FreeAll([TYPE_T, x]) == Free(TYPE_T) + FreeAll([TYPE_T, x][1..]);
    }
    assert "T" in Unstable(x) && Unstable(x)["T"] == Union([TYPE_T, x]);
  }

  lemma UnstableIs(x: TypeTree)
    ensures Unstable(x) == map["T" := Union([TYPE_T, x])]
  {
    OneParameter("T", Union([TYPE_T, x]), map[]);
    SubstituteNothing(Union([TYPE_T, x]), map[]);
  }

  /** So it never unfolds, with whatever fuel. */
  lemma {:induction false} UnstableNeverUnfolds(env: TypeEnvironment, scope: Scoping, fuel: nat, context: string, x: TypeTree)
    ensures Unfold(env, scope, fuel, context, TYPE_T, Unstable(x)).None?
  {
    UnstableReenters(x);
    if fuel > 0 {
      UnstableNeverUnfolds(env, scope, fuel - 1, context, x);
      var branches := [TYPE_T, x];
      assert UnfoldAll(env, scope, fuel - 1, context, branches, Unstable(x), true)
          == Both(Unfold(env, scope, fuel - 1, context, TYPE_T, Unstable(x)),
                  UnfoldAll(env, scope, fuel - 1, context, branches[1..], Unstable(x), true));
    }
  }

  // ---- Parameters that leak.

  const MEMBER_A := TypeMember("a", false)
  const MEMBER_C := TypeMember("c", false)
  const ITEM := TypeTree.Named("Item", [])
  const BASE := TypeTree.Named("Base", [])

  function Interface(parameters: seq<string>, members: seq<TypeMember>, parents: seq<TypeTree>): Located {
    Located(Declaration(parameters, members, parents, None, true, false), "")
  }

  /** `interface Wrap<Item> extends Base {}`, `interface Base extends Item {}`, `interface Item { c }` */
  const LEAKY := TypeEnvironment(map[("", "Wrap") := Interface(["Item"], [], [BASE]),
                                     ("", "Base") := Interface([], [], [ITEM]),
                                     ("", "Item") := Interface([], [MEMBER_C], [])], map[])

  const NAME_WRAP := "Wrap"
  const NAME_BASE := "Base"

  function WrapCall(argument: TypeTree): Call {
    DeclarationCall("", NAME_WRAP, [argument], map[])
  }

  function BaseCall(argument: TypeTree): Call {
    DeclarationCall("", NAME_BASE, [], map["Item" := argument])
  }

  lemma NothingIsBound(scope: Scoping, sub: Substitution)
    ensures ChildSubstitution([], [], sub) == sub && OwnSubstitution([], [], sub) == map[]
  {
  }

  lemma ItemIsBound(argument: TypeTree)
    ensures ChildSubstitution(["Item"], [argument], map[]) == map["Item" := argument]
    ensures OwnSubstitution(["Item"], [argument], map[]) == map["Item" := argument]
  {
    OneParameter("Item", argument, map[]);
    SubstituteNothing(argument, map[]);
    ChildOverrides(["Item"], [argument], map[]);
    assert OwnSubstitution(["Item"], [argument], map[]) == map[] + OwnSubstitution(["Item"], [argument], map[]);
  }

  /** Wrap's parent Base is asked for under Wrap's substitution, and Base's parent is then not the
      interface Item but Wrap's argument. */
  lemma LeakClosed(argument: TypeTree)
    requires argument == ObjectType([MEMBER_A], false)
    ensures Ready(LEAKY, {WrapCall(argument), BaseCall(argument)}, "", TypeTree.Named(NAME_WRAP, [argument]), map[])
    ensures !Scoped(LEAKY, {WrapCall(argument), BaseCall(argument)})
  {
    var universe := {WrapCall(argument), BaseCall(argument)};
    var leaked: Substitution := map["Item" := argument];
    ItemIsBound(argument);
    NothingIsBound(Inherited, leaked);
    SubstituteNothing(TypeTree.Named(NAME_WRAP, [argument]), map[]);
    assert Stable(leaked);
    assert Substitute(BASE, leaked) == BASE && Substitute(ITEM, leaked) == argument;
    assert DeclarationClosed(LEAKY, universe, WrapCall(argument));
    assert DeclarationClosed(LEAKY, universe, BaseCall(argument));
    var base := Interface([], [], [ITEM]).declaration;
    assert ITEM in Children(base) && "Item" in Free(ITEM);
    assert !Covers(ITEM, OwnSubstitution([], [], leaked), leaked);
    assert !CallScoped(base, [], leaked);
    assert BaseCall(argument) in universe;
  }

  /** Resolving one interface with one parent. */
  lemma InheritsFrom(env: TypeEnvironment, universe: set<Call>, call: Call, parent: TypeTree, seen: set<Key>)
    requires Closed(env, universe) && call in universe && call.DeclarationCall? && KeyOf(call) !in seen
    requires (call.context, call.name) in env.declarations
    requires env.declarations[(call.context, call.name)]
          == Located(Declaration(env.declarations[(call.context, call.name)].declaration.parameters, [], [parent], None, true, false), "")
    requires Ready(env, universe, "", parent,
                   ChildSubstitution(env.declarations[(call.context, call.name)].declaration.parameters, call.arguments, call.sub))
    ensures var child := ChildSubstitution(env.declarations[(call.context, call.name)].declaration.parameters, call.arguments, call.sub);
            var shape := Resolve(env, universe, "", parent, child, seen + {KeyOf(call)});
            ResolveDeclaration(env, universe, call.context, call.name, call.arguments, call.sub, seen)
            == Shape(MergeMembers(shape.members, []), shape.complete)
  {
    var parents: seq<TypeTree> := [parent];
    var child := ChildSubstitution(env.declarations[(call.context, call.name)].declaration.parameters, call.arguments, call.sub);
    var guard := seen + {KeyOf(call)};
    GuardShrinks(universe, seen, call);
    ChildrenReady(env, universe, call);
    assert parents[1..] == [] && parents[0] == parent;
    var shape := Resolve(env, universe, "", parent, child, guard);
    assert ResolveParents(env, universe, "", parents, child, guard, Shape([], true)) == Inherit(Shape([], true), shape);
  }

  lemma NoNames()
    ensures NamesOf([]) == {} && NamesOf([MEMBER_A]) == {"a"} && NamesOf([MEMBER_C]) == {"c"}
  {
  }

  /** The names of an interface with one parent, unfolded. */
  lemma UnfoldsOne(env: TypeEnvironment, scope: Scoping, n: nat, name: string, arguments: seq<TypeTree>, sub: Substitution,
                   parameters: seq<string>, parent: TypeTree, names: set<string>)
    requires ("", name) in env.declarations && env.declarations[("", name)] == Interface(parameters, [], [parent])
    requires Unfold(env, scope, n, "", parent, Bound(scope, parameters, arguments, sub)) == Some(names)
    ensures UnfoldNamed(env, scope, n, "", name, arguments, sub) == Some(names)
  {
    var child := Bound(scope, parameters, arguments, sub);
    var parents: seq<TypeTree> := [parent];
    NoNames();
    assert parents[1..] == [] && parents[0] == parent;
    assert UnfoldAll(env, scope, n, "", parents, child, false) == Both(Some(names), Some({}));
    assert names + {} + {} == names;
  }

  lemma ItemUnfolds()
    ensures Unfold(LEAKY, Lexical, 2, "", ITEM, map[]) == Some({"c"})
  {
    hide UnfoldEntity;
    NoNames();
    assert Unfold(LEAKY, Lexical, 2, "", ITEM, map[]) == UnfoldNamed(LEAKY, Lexical, 1, "", "Item", [], map[]);
    assert UnfoldNamed(LEAKY, Lexical, 1, "", "Item", [], map[]) == Both(Some({}), Some({"c"}));
    assert {} + {"c"} == {"c"};
  }

  lemma BaseUnfolds(sub: Substitution)
    requires NAME_BASE !in sub
    ensures Unfold(LEAKY, Lexical, 3, "", BASE, sub) == Some({"c"})
  {
    NothingIsBound(Lexical, sub);
    ItemUnfolds();
    UnfoldsOne(LEAKY, Lexical, 2, NAME_BASE, [], sub, [], ITEM, {"c"});
    assert Substitute(BASE, sub) == BASE;
  }

  lemma LexicallyItem(argument: TypeTree)
    requires argument == ObjectType([MEMBER_A], false)
    ensures Unfold(LEAKY, Lexical, 4, "", TypeTree.Named(NAME_WRAP, [argument]), map[]) == Some({"c"})
  {
    var leaked: Substitution := map["Item" := argument];
    ItemIsBound(argument);
    BaseUnfolds(leaked);
    UnfoldsOne(LEAKY, Lexical, 3, NAME_WRAP, [argument], map[], ["Item"], BASE, {"c"});
    SubstituteNothing(TypeTree.Named(NAME_WRAP, [argument]), map[]);
  }

  /** A wrong complete answer: the callers' parameters are inherited, so Base's parent Item, an
      interface with the member c, is answered with the member a of Wrap's argument. */
  lemma LeakWitness(argument: TypeTree) returns (universe: set<Call>)
    requires argument == ObjectType([MEMBER_A], false)
    ensures Ready(LEAKY, universe, "", TypeTree.Named(NAME_WRAP, [argument]), map[]) && !Scoped(LEAKY, universe)
    ensures Resolve(LEAKY, universe, "", TypeTree.Named(NAME_WRAP, [argument]), map[], {}).complete
    ensures NamesOf(Resolve(LEAKY, universe, "", TypeTree.Named(NAME_WRAP, [argument]), map[], {}).members) == {"a"}
    ensures Unfold(LEAKY, Lexical, 4, "", TypeTree.Named(NAME_WRAP, [argument]), map[]) == Some({"c"})
  {
    universe := {WrapCall(argument), BaseCall(argument)};
    var wrap := TypeTree.Named(NAME_WRAP, [argument]);
    var leaked: Substitution := map["Item" := argument];
    LeakClosed(argument);
    LexicallyItem(argument);
    LeakedAnswer(argument, universe);
    SubstituteNothing(wrap, map[]);
    ValueIsReady(LEAKY, universe, "", wrap, map[]);
  }

  lemma LeakedBase(argument: TypeTree, universe: set<Call>, seen: set<Key>)
    requires argument == ObjectType([MEMBER_A], false) && Closed(LEAKY, universe)
    requires BaseCall(argument) in universe && KeyOf(BaseCall(argument)) !in seen
    requires Ready(LEAKY, universe, "", BASE, map["Item" := argument])
    ensures var shape := Resolve(LEAKY, universe, "", BASE, map["Item" := argument], seen);
            shape.complete && NamesOf(shape.members) == {"a"}
  {
    hide MergeMembers;
    var leaked: Substitution := map["Item" := argument];
    var base := BaseCall(argument);
    NothingIsBound(Inherited, leaked);
    NoNames();
    assert Substitute(BASE, leaked) == BASE && Substitute(ITEM, leaked) == argument;
    InheritsFrom(LEAKY, universe, base, ITEM, seen);
    var inner := Resolve(LEAKY, universe, "", ITEM, leaked, seen + {KeyOf(base)});
    assert inner == Shape([MEMBER_A], true);
    MergedNames(inner.members, []);
  }

  lemma LeakedAnswer(argument: TypeTree, universe: set<Call>)
    requires argument == ObjectType([MEMBER_A], false) && universe == {WrapCall(argument), BaseCall(argument)}
    requires Closed(LEAKY, universe)
    ensures var shape := ResolveDeclaration(LEAKY, universe, "", NAME_WRAP, [argument], map[], {});
            shape.complete && NamesOf(shape.members) == {"a"}
  {
    var leaked: Substitution := map["Item" := argument];
    var wrap := WrapCall(argument);
    ItemIsBound(argument);
    NoNames();
    assert Substitute(BASE, leaked) == BASE;
    InheritsFrom(LEAKY, universe, wrap, BASE, {});
    LeakedBase(argument, universe, {} + {KeyOf(wrap)});
    MergedNames(Resolve(LEAKY, universe, "", BASE, leaked, {} + {KeyOf(wrap)}).members, []);
  }
}
