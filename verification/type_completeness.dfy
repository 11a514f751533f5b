/** What `Complete` promises: a complete answer of the resolver has exactly the member names of
    the guard-free unfolding (internal/admin/type_resolver.go:16-305, type_index.go:924-979). */
module TypeCompleteness {
  import opened AdminModel
  import opened TypeResolver
  import opened TypeUnfolding

  // ---- What the parser produces.

  /** The names of the object literals an alias shows outside any generic. */
  function ShownNames(t: TypeTree): set<string>
    decreases t, 0
  {
    match t
    case ObjectType(members, _) => NamesOf(members)
    case Union(bs) => ShownNamesAll(bs)
    case Intersection(bs) => ShownNamesAll(bs)
    case _ => {}
  }

  function ShownNamesAll(ts: seq<TypeTree>): set<string>
    decreases ts, 1
  {
    if ts == [] then {} else ShownNames(ts[0]) + ShownNamesAll(ts[1..])
  }

  /** An alias has no parents, and the members stored with it are those its text shows
      (type_index.go:104-145). */
  ghost predicate AliasesParsed(env: TypeEnvironment) {
    forall k :: k in env.declarations && env.declarations[k].declaration.alias.Some? ==>
      AliasParsed(env.declarations[k].declaration)
  }

  /** The answers are compared with the environment whose entity interfaces are all taken for closed. */
  ghost predicate Parsed(env: TypeEnvironment, ref: TypeEnvironment) {
    AliasesParsed(env) && ref == Sealed(env)
  }

  predicate AliasParsed(d: Declaration)
    requires d.alias.Some?
  {
    d.parents == [] && NamesOf(d.members) <= ShownNames(d.alias.value)
  }

  lemma {:induction false} ShownUnfold(env: TypeEnvironment, fuel: nat, context: string, t: TypeTree, sub: Substitution)
    requires Unfold(env, Inherited, fuel, context, t, sub).Some?
    ensures ShownNames(t) <= Unfold(env, Inherited, fuel, context, t, sub).value
    decreases fuel, 0, 0
  {
    match t
    case Union(bs) => ShownAllUnfold(env, fuel - 1, context, bs, sub, true, SubstituteAll(bs, sub));
    case Intersection(bs) => ShownAllUnfold(env, fuel - 1, context, bs, sub, false, SubstituteAll(bs, sub));
    case _ =>
  }

  lemma {:induction false} ShownAllUnfold(env: TypeEnvironment, fuel: nat, context: string, ts: seq<TypeTree>, sub: Substitution,
                                         skipNullish: bool, vs: seq<TypeTree>)
    requires vs == SubstituteAll(ts, sub) && UnfoldAll(env, Inherited, fuel, context, vs, sub, skipNullish).Some?
    ensures ShownNamesAll(ts) <= UnfoldAll(env, Inherited, fuel, context, vs, sub, skipNullish).value
    decreases fuel, 1, |ts|
  {
    if ts != [] {
      assert vs[0] == Substitute(ts[0], sub) && vs[1..] == SubstituteAll(ts[1..], sub);
      ShownAllUnfold(env, fuel, context, ts[1..], sub, skipNullish, vs[1..]);
      ShownSubstituted(ts[0], sub);
      if !(skipNullish && vs[0].Nullish?) {
        ShownUnfold(env, fuel, context, vs[0], sub);
      }
    }
  }

  lemma {:induction false} ShownSubstituted(t: TypeTree, sub: Substitution)
    ensures ShownNames(t) <= ShownNames(Substitute(t, sub))
    decreases t, 0
  {
    match t
    case Union(bs) => ShownAllSubstituted(bs, sub);
    case Intersection(bs) => ShownAllSubstituted(bs, sub);
    case _ =>
  }

  lemma {:induction false} ShownAllSubstituted(ts: seq<TypeTree>, sub: Substitution)
    ensures ShownNamesAll(ts) <= ShownNamesAll(SubstituteAll(ts, sub))
    decreases ts, 1
  {
    if ts != [] {
      ShownSubstituted(ts[0], sub);
      ShownAllSubstituted(ts[1..], sub);
      assert SubstituteAll(ts, sub)[1..] == SubstituteAll(ts[1..], sub);
    }
  }

  // ---- Complete is earned.

  lemma {:induction false} PickedNames(pick: bool, members: seq<TypeMember>, names: set<string>)
    ensures NamesOf(Picked(pick, members, names)) == if pick then NamesOf(members) * names else NamesOf(members) - names
  {
    if members != [] {
      var init, x := members[..|members| - 1], members[|members| - 1];
      assert members == init + [x];
      PickedNames(pick, init, names);
      NamesAppend(init, x);
      if (x.name in names) == pick {
        NamesAppend(Picked(pick, init, names), x);
      } else {
        assert Picked(pick, init, names) + [] == Picked(pick, init, names);
      }
    }
  }

  lemma WrappedNames(kind: WrapperKind, shape: Shape)
    ensures NamesOf(Wrap(kind, shape).members) == NamesOf(shape.members)
  {
    var wrapped := Wrap(kind, shape).members;
    forall name ensures name in NamesOf(wrapped) <==> name in NamesOf(shape.members) {
      NamesOfIff(wrapped, name);
      NamesOfIff(shape.members, name);
      if Holds(shape.members, name) {
        var i :| 0 <= i < |shape.members| && shape.members[i].name == name;
        assert wrapped[i].name == name;
      }
    }
  }

  /** A complete answer and an unfolding that agree. */
  ghost predicate Earned(shape: Shape, unfolded: Option<set<string>>) {
    shape.complete ==> unfolded == Some(NamesOf(shape.members))
  }

  /** A complete answer that adds an unfolding to an earlier result. */
  ghost predicate Adds(result: Shape, unfolded: Option<set<string>>, shape: Shape) {
    shape.complete ==> result.complete && unfolded.Some? && NamesOf(shape.members) == NamesOf(result.members) + unfolded.value
  }

  /** One more shape on a result, and then the rest. */
  lemma AddsThen(result: Shape, first: Shape, one: Option<set<string>>, next: Shape, rest: Option<set<string>>, shape: Shape)
    requires Earned(first, one) && Adds(next, rest, shape)
    requires next.complete == (result.complete && first.complete)
    requires NamesOf(next.members) == NamesOf(result.members) + NamesOf(first.members)
    ensures Adds(result, Both(one, rest), shape)
  {
  }

  lemma AddsMore(env: TypeEnvironment, fuel: nat, more: nat, context: string, ts: seq<TypeTree>, sub: Substitution, result: Shape, shape: Shape)
    requires fuel <= more && Adds(result, UnfoldAll(env, Inherited, fuel, context, ts, sub, false), shape)
    ensures Adds(result, UnfoldAll(env, Inherited, more, context, ts, sub, false), shape)
  {
    if shape.complete {
      UnfoldAllMore(env, Inherited, fuel, more, context, ts, sub, false);
    }
  }

  lemma EarnedMore(env: TypeEnvironment, fuel: nat, more: nat, context: string, t: TypeTree, sub: Substitution, shape: Shape)
    requires fuel <= more && Earned(shape, Unfold(env, Inherited, fuel, context, t, sub))
    ensures Earned(shape, Unfold(env, Inherited, more, context, t, sub))
  {
    if shape.complete {
      UnfoldMore(env, Inherited, fuel, more, context, t, sub);
    }
  }

  lemma {:induction false} ResolveEarned(env: TypeEnvironment, ref: TypeEnvironment, universe: set<Call>, context: string, t: TypeTree,
                                        sub: Substitution, seen: set<Key>) returns (fuel: nat)
    requires Ready(env, universe, context, t, sub) && Parsed(env, ref)
    ensures Earned(Resolve(env, universe, context, t, sub, seen), Unfold(ref, Inherited, fuel, context, t, sub))
    decreases |KeysOf(universe) - seen|, 0, Size(Substitute(t, sub)), 1
  {
    ValueIsReady(env, universe, context, t, sub);
    var n := ValueEarned(env, ref, universe, context, Substitute(t, sub), sub, seen);
    fuel := n + 1;
  }

  lemma {:induction false} ValueEarned(env: TypeEnvironment, ref: TypeEnvironment, universe: set<Call>, context: string, v: TypeTree,
                                      sub: Substitution, seen: set<Key>) returns (n: nat)
    requires ReadyValue(env, universe, context, v, sub) && Parsed(env, ref)
    ensures Earned(ResolveValue(env, universe, context, v, sub, seen), UnfoldValue(ref, Inherited, n, context, v, sub))
    decreases |KeysOf(universe) - seen|, 0, Size(v), 0
  {
    n := 0;
    match v
    case Wrapper(kind, inner) =>
      AgainReady(env, universe, context, inner, sub);
      n := ResolveEarned(env, ref, universe, context, inner, sub, seen);
      WrappedNames(kind, Resolve(env, universe, context, inner, sub, seen));
    case Union(bs) =>
      n := BranchesEarned(env, ref, universe, context, bs, sub, seen);
      UnionEarned(ResolveBranches(env, universe, context, bs, sub, seen));
    case Intersection(bs) =>
      n := IntersectionEarned(env, ref, universe, context, bs, sub, seen, Shape([], true));
      AddsNothing(UnfoldAll(ref, Inherited, n, context, bs, sub, false),
                  ResolveIntersection(env, universe, context, bs, sub, seen, Shape([], true)));
    case Selection(pick, source, keys) =>
      AgainReady(env, universe, context, source, sub);
      n := ResolveEarned(env, ref, universe, context, source, sub, seen);
      SelectionEarned(pick, Resolve(env, universe, context, source, sub, seen), Unfold(ref, Inherited, n, context, source, sub), Substitute(keys, sub));
    case Entity(entity) => n := EntityEarned(env, ref, universe, entity, seen);
    case Named(name, arguments) => n := NamedEarned(env, ref, universe, context, name, arguments, sub, seen);
    case _ =>
  }

  lemma SelectionEarned(pick: bool, shape: Shape, unfolded: Option<set<string>>, keys: TypeTree)
    requires Earned(shape, unfolded)
    ensures Earned(Select(pick, shape, keys), Selected(pick, unfolded, keys))
  {
    KeyNamesAre(keys);
    PickedNames(pick, shape.members, KeyNames(keys).0);
    if Select(pick, shape, keys).complete {
      var names := NamesOf(Select(pick, shape, keys).members);
      assert names == set name | name in unfolded.value && IsKey(keys, name) == pick;
    }
  }

  /** The shape of a union is complete when its branches are, with all their names. */
  lemma UnionEarned(shapes: seq<Shape>)
    ensures UnionShape(shapes).complete ==> AllComplete(shapes) && NamesOf(UnionShape(shapes).members) == ShapeNames(shapes)
  {
    if |shapes| == 1 {
      assert shapes[..0] == [] && ShapeNames(shapes[..0]) == {};
    } else if |shapes| > 1 {
      UnionNames(shapes);
    }
  }

  lemma {:induction false} ShapeNamesFront(shape: Shape, shapes: seq<Shape>)
    ensures ShapeNames([shape] + shapes) == NamesOf(shape.members) + ShapeNames(shapes)
    ensures AllComplete([shape] + shapes) <==> shape.complete && AllComplete(shapes)
    decreases |shapes|
  {
    var all := [shape] + shapes;
    assert all[0] == shape && all[1..] == shapes;
    if shapes == [] {
      assert all[..0] == [];
    } else {
      assert all[..|all| - 1] == [shape] + shapes[..|shapes| - 1];
      ShapeNamesFront(shape, shapes[..|shapes| - 1]);
    }
    if shape.complete && AllComplete(shapes) {
      forall i | 0 <= i < |all| ensures all[i].complete {
        assert i > 0 ==> all[i] == shapes[i - 1];
      }
    }
    if AllComplete(all) {
      forall i | 0 <= i < |shapes| ensures shapes[i].complete {
        assert all[i + 1] == shapes[i];
      }
    }
  }

  /** Complete branches and the unfolding of a union that agree. */
  ghost predicate BranchesAgree(shapes: seq<Shape>, unfolded: Option<set<string>>) {
    AllComplete(shapes) ==> unfolded == Some(ShapeNames(shapes))
  }

  lemma BranchesStep(shape: Shape, one: Option<set<string>>, shapes: seq<Shape>, rest: Option<set<string>>)
    requires Earned(shape, one) && BranchesAgree(shapes, rest)
    ensures BranchesAgree([shape] + shapes, Both(one, rest))
  {
    ShapeNamesFront(shape, shapes);
  }

  lemma BranchesMore(env: TypeEnvironment, fuel: nat, more: nat, context: string, bs: seq<TypeTree>, sub: Substitution, shapes: seq<Shape>)
    requires fuel <= more && BranchesAgree(shapes, UnfoldAll(env, Inherited, fuel, context, bs, sub, true))
    ensures BranchesAgree(shapes, UnfoldAll(env, Inherited, more, context, bs, sub, true))
  {
    if AllComplete(shapes) {
      UnfoldAllMore(env, Inherited, fuel, more, context, bs, sub, true);
    }
  }

  lemma {:induction false} BranchesEarned(env: TypeEnvironment, ref: TypeEnvironment, universe: set<Call>, context: string, bs: seq<TypeTree>,
                                         sub: Substitution, seen: set<Key>) returns (fuel: nat)
    requires ReadyAll(env, universe, context, bs, sub) && Parsed(env, ref)
    ensures BranchesAgree(ResolveBranches(env, universe, context, bs, sub, seen), UnfoldAll(ref, Inherited, fuel, context, bs, sub, true))
    decreases |KeysOf(universe) - seen|, 0, SizeAll(bs), 2
  {
    fuel := 0;
    if bs != [] {
      AgainReady(env, universe, context, bs[0], sub);
      var rest := ResolveBranches(env, universe, context, bs[1..], sub, seen);
      var n := BranchesEarned(env, ref, universe, context, bs[1..], sub, seen);
      if bs[0].Nullish? {
        assert [] + rest == rest;
        fuel := n;
      } else {
        var shape := Resolve(env, universe, context, bs[0], sub, seen);
        var m := ResolveEarned(env, ref, universe, context, bs[0], sub, seen);
        fuel := if n > m then n else m;
        EarnedMore(ref, m, fuel, context, bs[0], sub, shape);
        BranchesMore(ref, n, fuel, context, bs[1..], sub, rest);
        BranchesStep(shape, Unfold(ref, Inherited, fuel, context, bs[0], sub), rest, UnfoldAll(ref, Inherited, fuel, context, bs[1..], sub, true));
      }
    }
  }

  lemma {:induction false} IntersectionEarned(env: TypeEnvironment, ref: TypeEnvironment, universe: set<Call>, context: string, bs: seq<TypeTree>,
                                             sub: Substitution, seen: set<Key>, result: Shape) returns (fuel: nat)
    requires ReadyAll(env, universe, context, bs, sub) && Parsed(env, ref)
    ensures Adds(result, UnfoldAll(ref, Inherited, fuel, context, bs, sub, false),
                 ResolveIntersection(env, universe, context, bs, sub, seen, result))
    decreases |KeysOf(universe) - seen|, 0, SizeAll(bs), 2
  {
    fuel := 0;
    if bs != [] {
      AgainReady(env, universe, context, bs[0], sub);
      var shape := Resolve(env, universe, context, bs[0], sub, seen);
      var m := ResolveEarned(env, ref, universe, context, bs[0], sub, seen);
      var next := Meet(result, shape);
      var n := IntersectionEarned(env, ref, universe, context, bs[1..], sub, seen, next);
      var final := ResolveIntersection(env, universe, context, bs[1..], sub, seen, next);
      fuel := if n > m then n else m;
      MergedNames(result.members, shape.members);
      EarnedMore(ref, m, fuel, context, bs[0], sub, shape);
      AddsMore(ref, n, fuel, context, bs[1..], sub, next, final);
      AddsThen(result, shape, Unfold(ref, Inherited, fuel, context, bs[0], sub), next, UnfoldAll(ref, Inherited, fuel, context, bs[1..], sub, false), final);
    }
  }

  lemma {:induction false} ParentsEarned(env: TypeEnvironment, ref: TypeEnvironment, universe: set<Call>, context: string, parents: seq<TypeTree>,
                                        sub: Substitution, seen: set<Key>, result: Shape) returns (fuel: nat)
    requires ParentsReady(env, universe, context, parents, sub) && Parsed(env, ref)
    ensures Adds(result, UnfoldAll(ref, Inherited, fuel, context, parents, sub, false),
                 ResolveParents(env, universe, context, parents, sub, seen, result))
    decreases |KeysOf(universe) - seen|, 1, |parents|, 0
  {
    fuel := 0;
    if parents != [] {
      var shape := Resolve(env, universe, context, parents[0], sub, seen);
      var m := ResolveEarned(env, ref, universe, context, parents[0], sub, seen);
      var next := Inherit(result, shape);
      var n := ParentsEarned(env, ref, universe, context, parents[1..], sub, seen, next);
      var final := ResolveParents(env, universe, context, parents[1..], sub, seen, next);
      fuel := if n > m then n else m;
      MergedNames(shape.members, result.members);
      EarnedMore(ref, m, fuel, context, parents[0], sub, shape);
      AddsMore(ref, n, fuel, context, parents[1..], sub, next, final);
      AddsThen(result, shape, Unfold(ref, Inherited, fuel, context, parents[0], sub), next,
               UnfoldAll(ref, Inherited, fuel, context, parents[1..], sub, false), final);
    }
  }

  lemma {:induction false} NamedEarned(env: TypeEnvironment, ref: TypeEnvironment, universe: set<Call>, context: string, name: string,
                                      arguments: seq<TypeTree>, sub: Substitution, seen: set<Key>) returns (n: nat)
    requires Closed(env, universe) && DeclarationCall(context, name, arguments, sub) in universe && Parsed(env, ref)
    ensures Earned(ResolveDeclaration(env, universe, context, name, arguments, sub, seen),
                   UnfoldNamed(ref, Inherited, n, context, name, arguments, sub))
    decreases |KeysOf(universe) - seen|, 0, 0, 0
  {
    n := 0;
    var call := DeclarationCall(context, name, arguments, sub);
    if KeyOf(call) !in seen && (context, name) in env.declarations {
      var found := env.declarations[(context, name)];
      var d := found.declaration;
      var child, guard := ChildSubstitution(d.parameters, arguments, sub), seen + {KeyOf(call)};
      GuardShrinks(universe, seen, call);
      ChildrenReady(env, universe, call);
      if d.alias.Some? {
        ChildIsReady(env, universe, call, d.alias.value);
        n := ResolveEarned(env, ref, universe, found.context, d.alias.value, child, guard);
        assert AliasParsed(d) && d.parents == [];
        AliasEarned(ref, n, found.context, d, child, Resolve(env, universe, found.context, d.alias.value, child, guard));
      } else {
        var start := Shape(d.members, d.isInterface && !d.isOpen);
        n := ParentsEarned(env, ref, universe, found.context, d.parents, child, guard, start);
        InterfaceEarned(ref, n, found.context, d, child, ResolveParents(env, universe, found.context, d.parents, child, guard, start));
      }
    }
  }

  lemma AliasEarned(env: TypeEnvironment, n: nat, context: string, d: Declaration, child: Substitution, shape: Shape)
    requires d.alias.Some? && AliasParsed(d) && Earned(shape, Unfold(env, Inherited, n, context, d.alias.value, child))
    ensures Earned(Shape(MergeMembers(shape.members, d.members), shape.complete), UnfoldDeclaration(env, Inherited, n, context, d, child))
  {
    MergedNames(shape.members, d.members);
    if shape.complete {
      ShownUnfold(env, n, context, d.alias.value, child);
      assert NamesOf(shape.members) + NamesOf(d.members) == NamesOf(shape.members);
    }
  }

  lemma FilesMore(env: TypeEnvironment, fuel: nat, more: nat, files: seq<Located>, result: Shape, shape: Shape)
    requires fuel <= more && Adds(result, UnfoldFiles(env, Inherited, fuel, files), shape)
    ensures Adds(result, UnfoldFiles(env, Inherited, more, files), shape)
  {
    if shape.complete {
      UnfoldFilesMore(env, Inherited, fuel, more, files);
    }
  }

  /** One file: its own members, what it inherits, and then the other files. */
  lemma FileAdds(result: Shape, d: Declaration, own: Shape, inherited: Option<set<string>>, next: Shape,
                 rest: Option<set<string>>, shape: Shape)
    requires own == Shape(MergeMembers(result.members, d.members), result.complete)
    requires Adds(own, inherited, next) && Adds(next, rest, shape)
    ensures Adds(result, Both(Both(Some(NamesOf(d.members)), inherited), rest), shape)
  {
    MergedNames(result.members, d.members);
  }

  lemma {:induction false} FilesEarned(env: TypeEnvironment, ref: TypeEnvironment, universe: set<Call>, files: seq<Located>, seen: set<Key>,
                                      result: Shape) returns (fuel: nat)
    requires AllFilesReady(env, universe, files) && Parsed(env, ref)
    ensures Adds(result, UnfoldFiles(ref, Inherited, fuel, SealedFiles(files)), ResolveFiles(env, universe, files, seen, result))
    decreases |KeysOf(universe) - seen|, 2, |files|, 0
  {
    fuel := 0;
    if files != [] {
      assert files[0] in files;
      var context, d := files[0].context, files[0].declaration;
      var own := Shape(MergeMembers(result.members, d.members), result.complete);
      var next := ResolveParents(env, universe, context, d.parents, map[], seen, own);
      var m := ParentsEarned(env, ref, universe, context, d.parents, map[], seen, own);
      var n := FilesEarned(env, ref, universe, files[1..], seen, next);
      var final := ResolveFiles(env, universe, files[1..], seen, next);
      fuel := if n > m then n else m;
      AddsMore(ref, m, fuel, context, d.parents, map[], own, next);
      FilesMore(ref, n, fuel, SealedFiles(files[1..]), next, final);
      assert SealedFiles(files)[1..] == SealedFiles(files[1..]);
      FileAdds(result, d, own, UnfoldAll(ref, Inherited, fuel, context, d.parents, map[], false), next,
               UnfoldFiles(ref, Inherited, fuel, SealedFiles(files[1..])), final);
    }
  }

  lemma {:induction false} EntityEarned(env: TypeEnvironment, ref: TypeEnvironment, universe: set<Call>, entity: string, seen: set<Key>) returns (n: nat)
    requires Closed(env, universe) && EntityCall(entity) in universe && Parsed(env, ref)
    ensures Earned(ResolveEntity(env, universe, entity, seen), UnfoldEntity(ref, Inherited, n, entity))
    decreases |KeysOf(universe) - seen|, 0, 0, 0
  {
    n := 0;
    var call := EntityCall(entity);
    if entity != "" && KeyOf(call) !in seen && entity in env.entities && env.entities[entity] != [] {
      GuardShrinks(universe, seen, call);
      FilesReady(env, universe, entity);
      var files, guard := env.entities[entity], seen + {KeyOf(call)};
      n := FilesEarned(env, ref, universe, files, guard, Shape([], true));
      var merged := ResolveFiles(env, universe, files, guard, Shape([], true));
      EntityStep(merged, UnfoldFiles(ref, Inherited, n, SealedFiles(files)), RUNTIME_MEMBERS);
    }
  }

  lemma EntityStep(merged: Shape, unfolded: Option<set<string>>, runtime: seq<TypeMember>)
    requires Adds(Shape([], true), unfolded, merged)
    ensures Earned(Shape(MergeMembers(merged.members, runtime), merged.complete), Both(unfolded, Some(NamesOf(runtime))))
  {
    MergedNames(merged.members, runtime);
    AddsNothing(unfolded, merged);
  }

  lemma AddsNothing(unfolded: Option<set<string>>, shape: Shape)
    requires Adds(Shape([], true), unfolded, shape)
    ensures Earned(shape, unfolded)
  {
    assert NamesOf([]) == {};
    if shape.complete {
      assert {} + unfolded.value == unfolded.value;
    }
  }

  lemma InterfaceEarned(env: TypeEnvironment, n: nat, context: string, d: Declaration, child: Substitution, shape: Shape)
    requires d.alias.None?
    requires Adds(Shape(d.members, d.isInterface && !d.isOpen), UnfoldAll(env, Inherited, n, context, d.parents, child, false), shape)
    ensures Earned(shape, UnfoldDeclaration(env, Inherited, n, context, d, child))
  {
    if shape.complete {
      var inherited := UnfoldAll(env, Inherited, n, context, d.parents, child, false).value;
      assert NamesOf(d.members) + inherited == inherited + NamesOf(d.members);
    }
  }

  /** The type unfolds to the names, with that fuel and with any more. */
  ghost predicate AlwaysUnfolds(env: TypeEnvironment, scope: Scoping, fuel: nat, context: string, t: TypeTree, names: set<string>) {
    forall more: nat :: fuel <= more ==> Unfold(env, scope, more, context, t, map[]) == Some(names)
  }

  /** A complete answer means that the type unfolds without any guard, so no cycle was cut and
      every declaration on the way was found and closed, and the member names are exactly those of
      the unfolding, however much further it is unfolded. Names mean what the resolver takes them
      for, and entity interfaces count as closed. */
  lemma CompleteIsUnfolded(env: TypeEnvironment, universe: set<Call>, context: string, t: TypeTree) returns (fuel: nat)
    requires Ready(env, universe, context, t, map[]) && AliasesParsed(env)
    requires Resolve(env, universe, context, t, map[], {}).complete
    ensures AlwaysUnfolds(Sealed(env), Inherited, fuel, context, t, NamesOf(Resolve(env, universe, context, t, map[], {}).members))
  {
    fuel := ResolveEarned(env, Sealed(env), universe, context, t, map[], {});
    var shape := Resolve(env, universe, context, t, map[], {});
    forall more: nat | fuel <= more
      ensures Unfold(Sealed(env), Inherited, more, context, t, map[]) == Some(NamesOf(shape.members))
    {
      EarnedMore(Sealed(env), fuel, more, context, t, map[], shape);
    }
  }

  /** Complete is earned: where no call's declaration mentions a name that only its callers bound,
      a complete answer has exactly the names of the unfolding in which every declaration sees its
      own parameters only. */
  lemma CompleteIsEarned(env: TypeEnvironment, universe: set<Call>, context: string, t: TypeTree) returns (fuel: nat)
    requires Ready(env, universe, context, t, map[]) && AliasesParsed(env) && Scoped(env, universe)
    requires Resolve(env, universe, context, t, map[], {}).complete
    ensures AlwaysUnfolds(Sealed(env), Lexical, fuel, context, t, NamesOf(Resolve(env, universe, context, t, map[], {}).members))
  {
    fuel := CompleteIsUnfolded(env, universe, context, t);
    var names := NamesOf(Resolve(env, universe, context, t, map[], {}).members);
    SealedReady(env, universe, context, t);
    forall more: nat | fuel <= more
      ensures Unfold(Sealed(env), Lexical, more, context, t, map[]) == Some(names)
    {
      ScopesAgree(Sealed(env), universe, more, context, t, map[], map[]);
    }
  }

  // ---- Entities.

  /** No interface of any other entity is open. */
  predicate OthersClosed(env: TypeEnvironment, entity: string) {
    forall other, found :: other in env.entities && other != entity && found in env.entities[other] ==> !found.declaration.isOpen
  }

  /** The interfaces of an entity are merged without looking at their index signatures: a complete
      answer, with whatever the interfaces inherit, is earned exactly when none of them is open. */
  lemma EntityEarnedIff(env: TypeEnvironment, universe: set<Call>, entity: string)
    requires Closed(env, universe) && EntityCall(entity) in universe && AliasesParsed(env) && OthersClosed(env, entity)
    requires ResolveEntity(env, universe, entity, {}).complete
    ensures (exists n: nat :: EntityUnfoldsTo(env, n, entity, NamesOf(ResolveEntity(env, universe, entity, {}).members)))
       <==> forall found :: found in env.entities[entity] ==> !found.declaration.isOpen
  {
    var names := NamesOf(ResolveEntity(env, universe, entity, {}).members);
    var files := env.entities[entity];
    if forall found :: found in files ==> !found.declaration.isOpen {
      SealedIsItself(env);
      var n := EntityEarned(env, Sealed(env), universe, entity, {});
      assert EntityUnfoldsTo(env, n, entity, names);
    }
    if n: nat :| EntityUnfoldsTo(env, n, entity, names) {
      FilesClosed(env, n, files);
    }
  }

  ghost predicate EntityUnfoldsTo(env: TypeEnvironment, n: nat, entity: string, names: set<string>) {
    UnfoldEntity(env, Inherited, n, entity) == Some(names)
  }

  lemma {:induction false} FilesClosed(env: TypeEnvironment, n: nat, files: seq<Located>)
    requires UnfoldFiles(env, Inherited, n, files).Some?
    ensures forall found :: found in files ==> !found.declaration.isOpen
    decreases |files|
  {
    if files != [] {
      assert files == [files[0]] + files[1..];
      FilesClosed(env, n, files[1..]);
    }
  }
}
