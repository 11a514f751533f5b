/** The member names of every answer of the resolver, complete or not
    (internal/admin/type_resolver.go:16-305, type_index.go:924-979). */
module TypeNames {
  import opened TypeResolver
  import opened TypeUnfolding
  import opened TypeCompleteness
  import opened TypeConverse

  // ---- The names a type shows, without a guard.

  /** What so much fuel finds: unknown parts show nothing. */
  function ShownBy(env: TypeEnvironment, fuel: nat, context: string, t: TypeTree, sub: Substitution): set<string>
    decreases fuel, 0, 0
  {
    if fuel == 0 then {} else ShownValue(env, fuel - 1, context, Substitute(t, sub), sub)
  }

  function ShownValue(env: TypeEnvironment, n: nat, context: string, v: TypeTree, sub: Substitution): set<string>
    decreases n, 4, 0
  {
    match v
    case Nullish => {}
    case Unnamed => {}
    case Literal(_) => {}
    case Wrapper(_, inner) => ShownBy(env, n, context, inner, sub)
    case Union(bs) => ShownAll(env, n, context, bs, sub, true)
    case Intersection(bs) => ShownAll(env, n, context, bs, sub, false)
    case ObjectType(members, _) => NamesOf(members)
    case Builtin(members, _) => NamesOf(members)
    case Selection(pick, source, keys) => Chosen(pick, ShownBy(env, n, context, source, sub), Substitute(keys, sub))
    case Entity(entity) => ShownEntity(env, n, entity)
    case Named(name, arguments) => ShownNamed(env, n, context, name, arguments, sub)
  }

  /** `Pick` shows nothing unless the keys are known. */
  function Chosen(pick: bool, names: set<string>, keys: TypeTree): set<string> {
    set name | name in names && IsKey(keys, name) == pick && (pick ==> KeysKnown(keys))
  }

  function ShownAll(env: TypeEnvironment, fuel: nat, context: string, ts: seq<TypeTree>, sub: Substitution, skipNullish: bool): set<string>
    decreases fuel, 1, |ts|
  {
    if ts == [] then {}
    else
      (if skipNullish && ts[0].Nullish? then {} else ShownBy(env, fuel, context, ts[0], sub))
      + ShownAll(env, fuel, context, ts[1..], sub, skipNullish)
  }

  /** A declaration shows its own members, its parents' and its alias's. */
  function ShownNamed(env: TypeEnvironment, n: nat, context: string, name: string, arguments: seq<TypeTree>, sub: Substitution): set<string>
    decreases n, 3, 0
  {
    if (context, name) !in env.declarations then {}
    else
      var found := env.declarations[(context, name)];
      var child := ChildSubstitution(found.declaration.parameters, arguments, sub);
      NamesOf(found.declaration.members) + ShownAll(env, n, found.context, found.declaration.parents, child, false)
      + if found.declaration.alias.None? then {} else ShownBy(env, n, found.context, found.declaration.alias.value, child)
  }

  function ShownFiles(env: TypeEnvironment, fuel: nat, files: seq<Located>): set<string>
    decreases fuel, 2, |files|
  {
    if files == [] then {}
    else
      NamesOf(files[0].declaration.members) + ShownAll(env, fuel, files[0].context, files[0].declaration.parents, map[], false)
      + ShownFiles(env, fuel, files[1..])
  }

  function ShownEntity(env: TypeEnvironment, n: nat, entity: string): set<string>
    decreases n, 3, 0
  {
    if entity == "" || entity !in env.entities || env.entities[entity] == [] then {}
    else ShownFiles(env, n, env.entities[entity]) + NamesOf(RUNTIME_MEMBERS)
  }

  // ---- More fuel finds no less.

  lemma {:induction false} ShownMore(env: TypeEnvironment, fuel: nat, more: nat, context: string, t: TypeTree, sub: Substitution)
    requires fuel <= more
    ensures ShownBy(env, fuel, context, t, sub) <= ShownBy(env, more, context, t, sub)
    decreases fuel, 0, 0
  {
    if fuel > 0 {
      ValueShownMore(env, fuel - 1, more - 1, context, Substitute(t, sub), sub);
    }
  }

  lemma {:induction false} ValueShownMore(env: TypeEnvironment, n: nat, more: nat, context: string, v: TypeTree, sub: Substitution)
    requires n <= more
    ensures ShownValue(env, n, context, v, sub) <= ShownValue(env, more, context, v, sub)
    decreases n, 4, 0
  {
    match v
    case Wrapper(_, inner) => ShownMore(env, n, more, context, inner, sub);
    case Union(bs) => AllShownMore(env, n, more, context, bs, sub, true);
    case Intersection(bs) => AllShownMore(env, n, more, context, bs, sub, false);
    case Selection(_, source, _) => ShownMore(env, n, more, context, source, sub);
    case Entity(entity) => if entity in env.entities { FilesShownMore(env, n, more, env.entities[entity]); }
    case Named(name, arguments) =>
      if (context, name) in env.declarations {
        var found := env.declarations[(context, name)];
        var child := ChildSubstitution(found.declaration.parameters, arguments, sub);
        AllShownMore(env, n, more, found.context, found.declaration.parents, child, false);
        if found.declaration.alias.Some? { ShownMore(env, n, more, found.context, found.declaration.alias.value, child); }
      }
    case _ =>
  }

  lemma {:induction false} AllShownMore(env: TypeEnvironment, fuel: nat, more: nat, context: string, ts: seq<TypeTree>, sub: Substitution,
                                       skipNullish: bool)
    requires fuel <= more
    ensures ShownAll(env, fuel, context, ts, sub, skipNullish) <= ShownAll(env, more, context, ts, sub, skipNullish)
    decreases fuel, 1, |ts|
  {
    if ts != [] {
      ShownMore(env, fuel, more, context, ts[0], sub);
      AllShownMore(env, fuel, more, context, ts[1..], sub, skipNullish);
    }
  }

  lemma {:induction false} FilesShownMore(env: TypeEnvironment, fuel: nat, more: nat, files: seq<Located>)
    requires fuel <= more
    ensures ShownFiles(env, fuel, files) <= ShownFiles(env, more, files)
    decreases fuel, 2, |files|
  {
    if files != [] {
      AllShownMore(env, fuel, more, files[0].context, files[0].declaration.parents, map[], false);
      FilesShownMore(env, fuel, more, files[1..]);
    }
  }

  // ---- The names of lists of shapes.

  lemma UnionShapeNames(shapes: seq<Shape>)
    ensures NamesOf(UnionShape(shapes).members) == ShapeNames(shapes)
  {
    if |shapes| == 1 {
      assert shapes[..0] == [] && ShapeNames(shapes[..0]) == {};
    } else if |shapes| > 1 {
      UnionNames(shapes);
    }
  }

  lemma SelectedNames(pick: bool, shape: Shape, keys: TypeTree)
    ensures NamesOf(Select(pick, shape, keys).members) == Chosen(pick, NamesOf(shape.members), keys)
  {
    KeyNamesAre(keys);
    PickedNames(pick, shape.members, KeyNames(keys).0);
  }

  // ---- A name that the resolver shows is shown without a guard.

  lemma {:induction false} ResolvedShown(env: TypeEnvironment, universe: set<Call>, context: string, t: TypeTree, sub: Substitution,
                                        seen: set<Key>, name: string) returns (fuel: nat)
    requires Ready(env, universe, context, t, sub) && name in NamesOf(Resolve(env, universe, context, t, sub, seen).members)
    ensures name in ShownBy(env, fuel, context, t, sub)
    decreases |KeysOf(universe) - seen|, 0, Size(Substitute(t, sub)), 1
  {
    ValueIsReady(env, universe, context, t, sub);
    var n := ValueShown(env, universe, context, Substitute(t, sub), sub, seen, name);
    fuel := n + 1;
  }

  lemma {:induction false} ValueShown(env: TypeEnvironment, universe: set<Call>, context: string, v: TypeTree, sub: Substitution,
                                     seen: set<Key>, name: string) returns (n: nat)
    requires ReadyValue(env, universe, context, v, sub) && name in NamesOf(ResolveValue(env, universe, context, v, sub, seen).members)
    ensures name in ShownValue(env, n, context, v, sub)
    decreases |KeysOf(universe) - seen|, 0, Size(v), 0
  {
    n := 0;
    match v
    case Wrapper(kind, inner) =>
      AgainReady(env, universe, context, inner, sub);
      WrappedNames(kind, Resolve(env, universe, context, inner, sub, seen));
      n := ResolvedShown(env, universe, context, inner, sub, seen, name);
    case Union(bs) =>
      UnionShapeNames(ResolveBranches(env, universe, context, bs, sub, seen));
      n := BranchesShown(env, universe, context, bs, sub, seen, name);
    case Intersection(bs) => n := IntersectionShown(env, universe, context, bs, sub, seen, Shape([], true), name);
    case Selection(pick, source, keys) =>
      AgainReady(env, universe, context, source, sub);
      SelectedNames(pick, Resolve(env, universe, context, source, sub, seen), Substitute(keys, sub));
      n := ResolvedShown(env, universe, context, source, sub, seen, name);
    case Entity(entity) => n := EntityShown(env, universe, context, entity, sub, seen, name);
    case Named(other, arguments) => n := NamedShown(env, universe, context, other, arguments, sub, seen, name);
    case _ =>
  }

  lemma {:induction false} BranchesShown(env: TypeEnvironment, universe: set<Call>, context: string, bs: seq<TypeTree>, sub: Substitution,
                                        seen: set<Key>, name: string) returns (fuel: nat)
    requires ReadyAll(env, universe, context, bs, sub) && name in ShapeNames(ResolveBranches(env, universe, context, bs, sub, seen))
    ensures name in ShownAll(env, fuel, context, bs, sub, true)
    decreases |KeysOf(universe) - seen|, 0, SizeAll(bs), 2
  {
    AgainReady(env, universe, context, bs[0], sub);
    var rest := ResolveBranches(env, universe, context, bs[1..], sub, seen);
    if bs[0].Nullish? {
      assert [] + rest == rest;
      fuel := BranchesShown(env, universe, context, bs[1..], sub, seen, name);
    } else {
      var shape := Resolve(env, universe, context, bs[0], sub, seen);
      ShapeNamesFront(shape, rest);
      if name in NamesOf(shape.members) {
        fuel := ResolvedShown(env, universe, context, bs[0], sub, seen, name);
      } else {
        fuel := BranchesShown(env, universe, context, bs[1..], sub, seen, name);
      }
    }
  }

  lemma {:induction false} IntersectionShown(env: TypeEnvironment, universe: set<Call>, context: string, bs: seq<TypeTree>, sub: Substitution,
                                            seen: set<Key>, result: Shape, name: string) returns (fuel: nat)
    requires ReadyAll(env, universe, context, bs, sub) && name !in NamesOf(result.members)
    requires name in NamesOf(ResolveIntersection(env, universe, context, bs, sub, seen, result).members)
    ensures name in ShownAll(env, fuel, context, bs, sub, false)
    decreases |KeysOf(universe) - seen|, 0, SizeAll(bs), 2
  {
    AgainReady(env, universe, context, bs[0], sub);
    var shape := Resolve(env, universe, context, bs[0], sub, seen);
    MergedNames(result.members, shape.members);
    if name in NamesOf(shape.members) {
      fuel := ResolvedShown(env, universe, context, bs[0], sub, seen, name);
    } else {
      fuel := IntersectionShown(env, universe, context, bs[1..], sub, seen, Meet(result, shape), name);
    }
  }

  lemma {:induction false} ParentsShown(env: TypeEnvironment, universe: set<Call>, context: string, parents: seq<TypeTree>, sub: Substitution,
                                       seen: set<Key>, result: Shape, name: string) returns (fuel: nat)
    requires ParentsReady(env, universe, context, parents, sub) && name !in NamesOf(result.members)
    requires name in NamesOf(ResolveParents(env, universe, context, parents, sub, seen, result).members)
    ensures name in ShownAll(env, fuel, context, parents, sub, false)
    decreases |KeysOf(universe) - seen|, 1, |parents|, 0
  {
    var shape := Resolve(env, universe, context, parents[0], sub, seen);
    MergedNames(shape.members, result.members);
    if name in NamesOf(shape.members) {
      fuel := ResolvedShown(env, universe, context, parents[0], sub, seen, name);
    } else {
      fuel := ParentsShown(env, universe, context, parents[1..], sub, seen, Inherit(result, shape), name);
    }
  }

  lemma {:induction false} NamedShown(env: TypeEnvironment, universe: set<Call>, context: string, other: string, arguments: seq<TypeTree>,
                                     sub: Substitution, seen: set<Key>, name: string) returns (n: nat)
    requires Closed(env, universe) && DeclarationCall(context, other, arguments, sub) in universe
    requires name in NamesOf(ResolveDeclaration(env, universe, context, other, arguments, sub, seen).members)
    ensures name in ShownNamed(env, n, context, other, arguments, sub)
    decreases |KeysOf(universe) - seen|, 0, 0, 0
  {
    n := 0;
    var call := DeclarationCall(context, other, arguments, sub);
    var found := env.declarations[(context, other)];
    var d := found.declaration;
    var child, guard := ChildSubstitution(d.parameters, arguments, sub), seen + {KeyOf(call)};
    GuardShrinks(universe, seen, call);
    ChildrenReady(env, universe, call);
    var start := Shape(d.members, d.isInterface && !d.isOpen);
    var own := ResolveParents(env, universe, found.context, d.parents, child, guard, start);
    if name !in NamesOf(d.members) {
      if name in NamesOf(own.members) {
        n := ParentsShown(env, universe, found.context, d.parents, child, guard, start, name);
      } else {
        ChildIsReady(env, universe, call, d.alias.value);
        MergedNames(Resolve(env, universe, found.context, d.alias.value, child, guard).members, own.members);
        n := ResolvedShown(env, universe, found.context, d.alias.value, child, guard, name);
      }
    }
  }

  lemma {:induction false} FilesShown(env: TypeEnvironment, universe: set<Call>, files: seq<Located>, seen: set<Key>, result: Shape,
                                     name: string) returns (fuel: nat)
    requires AllFilesReady(env, universe, files) && name !in NamesOf(result.members)
    requires name in NamesOf(ResolveFiles(env, universe, files, seen, result).members)
    ensures name in ShownFiles(env, fuel, files)
    decreases |KeysOf(universe) - seen|, 2, |files|, 0
  {
    fuel := 0;
    assert files[0] in files;
    var context, d := files[0].context, files[0].declaration;
    var own := Shape(MergeMembers(result.members, d.members), result.complete);
    MergedNames(result.members, d.members);
    var next := ResolveParents(env, universe, context, d.parents, map[], seen, own);
    if name !in NamesOf(d.members) {
      if name in NamesOf(next.members) {
        fuel := ParentsShown(env, universe, context, d.parents, map[], seen, own, name);
      } else {
        fuel := FilesShown(env, universe, files[1..], seen, next, name);
      }
    }
  }

  lemma {:induction false} EntityShown(env: TypeEnvironment, universe: set<Call>, context: string, entity: string, sub: Substitution,
                                      seen: set<Key>, name: string) returns (n: nat)
    requires Closed(env, universe) && EntityCall(entity) in universe
    requires name in NamesOf(ResolveEntity(env, universe, entity, seen).members)
    ensures name in ShownEntity(env, n, entity)
    decreases |KeysOf(universe) - seen|, 0, 0, 0
  {
    n := 0;
    GuardShrinks(universe, seen, EntityCall(entity));
    FilesReady(env, universe, entity);
    var guard := seen + {EntityKey(entity)};
    var merged := ResolveFiles(env, universe, env.entities[entity], guard, Shape([], true));
    MergedNames(merged.members, RUNTIME_MEMBERS);
    if name !in NamesOf(RUNTIME_MEMBERS) {
      n := FilesShown(env, universe, env.entities[entity], guard, Shape([], true), name);
    }
  }

  // ---- And the other way round.

  ghost predicate CallShows(env: TypeEnvironment, call: Call, n: nat, name: string) {
    match call
    case DeclarationCall(context, other, arguments, sub) => name in ShownNamed(env, n, context, other, arguments, sub)
    case EntityCall(entity) => name in ShownEntity(env, n, entity)
  }

  /** Calls that the guard takes for the same show alike. */
  ghost predicate ShowsAlike(env: TypeEnvironment, universe: set<Call>) {
    forall c, d, n: nat, name :: c in universe && d in universe && KeyOf(c) == KeyOf(d) ==> (CallShows(env, c, n, name) <==> CallShows(env, d, n, name))
  }

  ghost predicate Waiting(env: TypeEnvironment, universe: set<Call>, seen: set<Key>, n: nat, name: string) {
    forall call :: call in universe && KeyOf(call) in seen ==> !CallShows(env, call, n, name)
  }

  lemma CallShowsMore(env: TypeEnvironment, call: Call, n: nat, more: nat, name: string)
    requires n <= more && CallShows(env, call, n, name)
    ensures CallShows(env, call, more, name)
  {
    hide ShownNamed, ShownEntity, ShownAll, ShownBy;
    match call
    case DeclarationCall(context, other, arguments, sub) =>
      ValueShownMore(env, n, more, context, TypeTree.Named(other, arguments), sub);
    case EntityCall(entity) => ValueShownMore(env, n, more, "", TypeTree.Entity(entity), map[]);
  }

  lemma WaitingLess(env: TypeEnvironment, universe: set<Call>, seen: set<Key>, less: nat, n: nat, name: string)
    requires less <= n && Waiting(env, universe, seen, n, name)
    ensures Waiting(env, universe, seen, less, name)
  {
    hide CallShows;
    forall call | call in universe && KeyOf(call) in seen ensures !CallShows(env, call, less, name) {
      if CallShows(env, call, less, name) {
        CallShowsMore(env, call, less, n, name);
      }
    }
  }

  lemma {:induction false} LeastShown(env: TypeEnvironment, call: Call, n: nat, name: string) returns (least: nat)
    requires CallShows(env, call, n, name)
    ensures least <= n && CallShows(env, call, least, name) && forall m: nat :: m < least ==> !CallShows(env, call, m, name)
  {
    hide CallShows;
    if n > 0 && CallShows(env, call, n - 1, name) {
      least := LeastShown(env, call, n - 1, name);
    } else {
      least := n;
      forall m: nat | m < n ensures !CallShows(env, call, m, name) {
        if CallShows(env, call, m, name) {
          CallShowsMore(env, call, m, n - 1, name);
        }
      }
    }
  }

  lemma WaitingInside(env: TypeEnvironment, universe: set<Call>, seen: set<Key>, call: Call, n: nat, least: nat, name: string)
    requires call in universe && ShowsAlike(env, universe) && Waiting(env, universe, seen, n, name) && least <= n
    requires forall m: nat :: m < least ==> !CallShows(env, call, m, name)
    ensures least > 0 ==> Waiting(env, universe, seen + {KeyOf(call)}, least - 1, name)
  {
    hide CallShows;
    if least > 0 {
      WaitingLess(env, universe, seen, least - 1, n, name);
    }
  }

  lemma {:induction false} ShownResolved(env: TypeEnvironment, universe: set<Call>, fuel: nat, context: string, t: TypeTree,
                                        sub: Substitution, seen: set<Key>, name: string)
    requires Ready(env, universe, context, t, sub) && ShowsAlike(env, universe)
    requires name in ShownBy(env, fuel, context, t, sub) && Waiting(env, universe, seen, fuel - 1, name)
    ensures name in NamesOf(Resolve(env, universe, context, t, sub, seen).members)
    decreases fuel, 0, 0
  {
    hide Substitute;
    ValueIsReady(env, universe, context, t, sub);
    ShownIsResolved(env, universe, fuel - 1, context, Substitute(t, sub), sub, seen, name);
  }

  lemma {:induction false} ShownIsResolved(env: TypeEnvironment, universe: set<Call>, n: nat, context: string, v: TypeTree,
                                          sub: Substitution, seen: set<Key>, name: string)
    requires ReadyValue(env, universe, context, v, sub) && ShowsAlike(env, universe)
    requires name in ShownValue(env, n, context, v, sub) && Waiting(env, universe, seen, n, name)
    ensures name in NamesOf(ResolveValue(env, universe, context, v, sub, seen).members)
    decreases n, 4, 0
  {
    hide Waiting;
    match v
    case Wrapper(kind, inner) =>
      AgainReady(env, universe, context, inner, sub);
      WaitingLess(env, universe, seen, n - 1, n, name);
      ShownResolved(env, universe, n, context, inner, sub, seen, name);
      WrappedNames(kind, Resolve(env, universe, context, inner, sub, seen));
    case Union(bs) =>
      ShownBranch(env, universe, n, context, bs, sub, seen, name);
      UnionShapeNames(ResolveBranches(env, universe, context, bs, sub, seen));
    case Intersection(bs) => ShownMeets(env, universe, n, context, bs, sub, seen, Shape([], true), name);
    case Selection(pick, source, keys) =>
      AgainReady(env, universe, context, source, sub);
      WaitingLess(env, universe, seen, n - 1, n, name);
      ShownResolved(env, universe, n, context, source, sub, seen, name);
      SelectedNames(pick, Resolve(env, universe, context, source, sub, seen), Substitute(keys, sub));
    case Entity(entity) => ShownOfEntity(env, universe, n, entity, seen, name);
    case Named(other, arguments) => ShownDeclared(env, universe, n, context, other, arguments, sub, seen, name);
    case _ =>
  }

  lemma {:induction false} ShownBranch(env: TypeEnvironment, universe: set<Call>, fuel: nat, context: string, bs: seq<TypeTree>,
                                      sub: Substitution, seen: set<Key>, name: string)
    requires ReadyAll(env, universe, context, bs, sub) && ShowsAlike(env, universe)
    requires name in ShownAll(env, fuel, context, bs, sub, true) && Waiting(env, universe, seen, fuel, name)
    ensures name in ShapeNames(ResolveBranches(env, universe, context, bs, sub, seen))
    decreases fuel, 1, |bs|
  {
    hide AllComplete, Substitute, ShapeNames, Waiting;
    AgainReady(env, universe, context, bs[0], sub);
    var rest := ResolveBranches(env, universe, context, bs[1..], sub, seen);
    if name in ShownAll(env, fuel, context, bs[1..], sub, true) {
      ShownBranch(env, universe, fuel, context, bs[1..], sub, seen, name);
    }
    if bs[0].Nullish? {
      assert [] + rest == rest;
    } else {
      ShapeNamesFront(Resolve(env, universe, context, bs[0], sub, seen), rest);
      if name in ShownBy(env, fuel, context, bs[0], sub) {
        WaitingLess(env, universe, seen, fuel - 1, fuel, name);
        ShownResolved(env, universe, fuel, context, bs[0], sub, seen, name);
      }
    }
  }

  lemma {:induction false} ShownMeets(env: TypeEnvironment, universe: set<Call>, fuel: nat, context: string, bs: seq<TypeTree>,
                                     sub: Substitution, seen: set<Key>, result: Shape, name: string)
    requires ReadyAll(env, universe, context, bs, sub) && ShowsAlike(env, universe) && Waiting(env, universe, seen, fuel, name)
    requires name in NamesOf(result.members) || name in ShownAll(env, fuel, context, bs, sub, false)
    ensures name in NamesOf(ResolveIntersection(env, universe, context, bs, sub, seen, result).members)
    decreases fuel, 1, |bs|
  {
    hide Within, Free, ShownValue, MergeMembers, Substitute, Waiting;
    if bs != [] {
      AgainReady(env, universe, context, bs[0], sub);
      var shape := Resolve(env, universe, context, bs[0], sub, seen);
      MergedNames(result.members, shape.members);
      if name in ShownBy(env, fuel, context, bs[0], sub) {
        WaitingLess(env, universe, seen, fuel - 1, fuel, name);
        ShownResolved(env, universe, fuel, context, bs[0], sub, seen, name);
      }
      ShownMeets(env, universe, fuel, context, bs[1..], sub, seen, Meet(result, shape), name);
    }
  }

  lemma {:induction false} ShownInherits(env: TypeEnvironment, universe: set<Call>, fuel: nat, context: string, parents: seq<TypeTree>,
                                        sub: Substitution, seen: set<Key>, result: Shape, name: string)
    requires ParentsReady(env, universe, context, parents, sub) && ShowsAlike(env, universe)
    requires fuel > 0 ==> Waiting(env, universe, seen, fuel - 1, name)
    requires name in NamesOf(result.members) || name in ShownAll(env, fuel, context, parents, sub, false)
    ensures name in NamesOf(ResolveParents(env, universe, context, parents, sub, seen, result).members)
    decreases fuel, 1, |parents|
  {
    if parents != [] {
      var shape := Resolve(env, universe, context, parents[0], sub, seen);
      MergedNames(shape.members, result.members);
      if name in ShownBy(env, fuel, context, parents[0], sub) {
        ShownResolved(env, universe, fuel, context, parents[0], sub, seen, name);
      }
      ShownInherits(env, universe, fuel, context, parents[1..], sub, seen, Inherit(result, shape), name);
    }
  }

  lemma {:induction false} ShownDeclared(env: TypeEnvironment, universe: set<Call>, n: nat, context: string, other: string,
                                        arguments: seq<TypeTree>, sub: Substitution, seen: set<Key>, name: string)
    requires Closed(env, universe) && DeclarationCall(context, other, arguments, sub) in universe && ShowsAlike(env, universe)
    requires name in ShownNamed(env, n, context, other, arguments, sub) && Waiting(env, universe, seen, n, name)
    ensures name in NamesOf(ResolveDeclaration(env, universe, context, other, arguments, sub, seen).members)
    decreases n, 3, 0
  {
    var call := DeclarationCall(context, other, arguments, sub);
    assert CallShows(env, call, n, name) && KeyOf(call) !in seen;
    var least := LeastShown(env, call, n, name);
    WaitingInside(env, universe, seen, call, n, least, name);
    var found := env.declarations[(context, other)];
    var d := found.declaration;
    var child, guard := ChildSubstitution(d.parameters, arguments, sub), seen + {KeyOf(call)};
    GuardShrinks(universe, seen, call);
    ChildrenReady(env, universe, call);
    var start := Shape(d.members, d.isInterface && !d.isOpen);
    var own := ResolveParents(env, universe, found.context, d.parents, child, guard, start);
    if name in NamesOf(d.members) || name in ShownAll(env, least, found.context, d.parents, child, false) {
      ShownInherits(env, universe, least, found.context, d.parents, child, guard, start, name);
    }
    if d.alias.Some? {
      ChildIsReady(env, universe, call, d.alias.value);
      MergedNames(Resolve(env, universe, found.context, d.alias.value, child, guard).members, own.members);
      if name in ShownBy(env, least, found.context, d.alias.value, child) {
        ShownResolved(env, universe, least, found.context, d.alias.value, child, guard, name);
      }
    }
  }

  lemma {:induction false} ShownInFiles(env: TypeEnvironment, universe: set<Call>, fuel: nat, files: seq<Located>, seen: set<Key>,
                                       result: Shape, name: string)
    requires AllFilesReady(env, universe, files) && ShowsAlike(env, universe)
    requires fuel > 0 ==> Waiting(env, universe, seen, fuel - 1, name)
    requires name in NamesOf(result.members) || name in ShownFiles(env, fuel, files)
    ensures name in NamesOf(ResolveFiles(env, universe, files, seen, result).members)
    decreases fuel, 2, |files|
  {
    if files != [] {
      assert files[0] in files;
      var context, d := files[0].context, files[0].declaration;
      var own := Shape(MergeMembers(result.members, d.members), result.complete);
      MergedNames(result.members, d.members);
      if name in NamesOf(own.members) || name in ShownAll(env, fuel, context, d.parents, map[], false) {
        ShownInherits(env, universe, fuel, context, d.parents, map[], seen, own, name);
      }
      ShownInFiles(env, universe, fuel, files[1..], seen, ResolveParents(env, universe, context, d.parents, map[], seen, own), name);
    }
  }

  lemma {:induction false} ShownOfEntity(env: TypeEnvironment, universe: set<Call>, n: nat, entity: string, seen: set<Key>, name: string)
    requires Closed(env, universe) && EntityCall(entity) in universe && ShowsAlike(env, universe)
    requires name in ShownEntity(env, n, entity) && Waiting(env, universe, seen, n, name)
    ensures name in NamesOf(ResolveEntity(env, universe, entity, seen).members)
    decreases n, 3, 0
  {
    var call := EntityCall(entity);
    assert CallShows(env, call, n, name) && KeyOf(call) !in seen;
    var least := LeastShown(env, call, n, name);
    WaitingInside(env, universe, seen, call, n, least, name);
    GuardShrinks(universe, seen, call);
    FilesReady(env, universe, entity);
    var merged := ResolveFiles(env, universe, env.entities[entity], seen + {KeyOf(call)}, Shape([], true));
    MergedNames(merged.members, RUNTIME_MEMBERS);
    if name in ShownFiles(env, least, env.entities[entity]) {
      ShownInFiles(env, universe, least, env.entities[entity], seen + {KeyOf(call)}, Shape([], true), name);
    }
  }

  /** One call for each key: the guard then only cuts what is really asked again. */
  ghost predicate OneCallEach(universe: set<Call>) {
    forall c, d :: c in universe && d in universe && KeyOf(c) == KeyOf(d) ==> c == d
  }

  lemma OneCallAlike(env: TypeEnvironment, universe: set<Call>)
    requires OneCallEach(universe)
    ensures ShowsAlike(env, universe) && AnswersAlike(Sealed(env), universe)
  {
  }

  /** Every answer, complete or not, shows exactly the names that some unfolding shows: a cycle that
      the guard cuts loses none, given that calls with the same key show alike. */
  lemma NamesIff(env: TypeEnvironment, universe: set<Call>, context: string, t: TypeTree, sub: Substitution, name: string)
    requires Ready(env, universe, context, t, sub) && ShowsAlike(env, universe)
    ensures name in NamesOf(Resolve(env, universe, context, t, sub, {}).members) <==> exists fuel: nat :: name in ShownBy(env, fuel, context, t, sub)
  {
    if name in NamesOf(Resolve(env, universe, context, t, sub, {}).members) {
      var fuel := ResolvedShown(env, universe, context, t, sub, {}, name);
    }
    if fuel: nat :| name in ShownBy(env, fuel, context, t, sub) {
      ShownResolved(env, universe, fuel, context, t, sub, {}, name);
    }
  }

  /** So it is where every key stands for one call. */
  lemma NamesExactly(env: TypeEnvironment, universe: set<Call>, context: string, t: TypeTree, sub: Substitution, name: string)
    requires Ready(env, universe, context, t, sub) && OneCallEach(universe)
    ensures name in NamesOf(Resolve(env, universe, context, t, sub, {}).members) <==> exists fuel: nat :: name in ShownBy(env, fuel, context, t, sub)
  {
    OneCallAlike(env, universe);
    NamesIff(env, universe, context, t, sub, name);
  }
}
