/** What `Complete` promises: the guard-free unfolding of a type, and the proof that a complete
    answer of the resolver has exactly its member names (internal/admin/type_resolver.go:16-305). */
module TypeUnfolding {
  import opened AdminModel
  import opened TypeResolver

  // ---- The reference: sets of names, no guard, no universe.

  /** What the names of type parameters mean inside a declaration: everything the callers bound
      as well, as the resolver has it, or the declaration's own parameters only. */
  datatype Scoping = Inherited | Lexical

  /** The declaration's own parameters, bound to their arguments. */
  function OwnSubstitution(parameters: seq<string>, arguments: seq<TypeTree>, sub: Substitution): Substitution {
    if parameters == [] then map[]
    else
      var init, n := parameters[..|parameters| - 1], |parameters| - 1;
      var earlier := OwnSubstitution(init, arguments, sub);
      if n < |arguments| then earlier[parameters[n] := Substitute(arguments[n], sub)] else earlier
  }

  function Bound(scope: Scoping, parameters: seq<string>, arguments: seq<TypeTree>, sub: Substitution): Substitution {
    if scope.Inherited? then ChildSubstitution(parameters, arguments, sub) else OwnSubstitution(parameters, arguments, sub)
  }

  function Both(a: Option<set<string>>, b: Option<set<string>>): Option<set<string>> {
    if a.Some? && b.Some? then Some(a.value + b.value) else None
  }

  /** The member names of a type, if `fuel` steps unfold it and every part of it is declared
      once and closed. An alias is its expansion; an interface has its own and its parents' names. */
  function Unfold(env: TypeEnvironment, scope: Scoping, fuel: nat, context: string, t: TypeTree, sub: Substitution): Option<set<string>>
    decreases fuel, 0, 0
  {
    if fuel == 0 then None else UnfoldValue(env, scope, fuel - 1, context, Substitute(t, sub), sub)
  }

  function UnfoldValue(env: TypeEnvironment, scope: Scoping, n: nat, context: string, v: TypeTree, sub: Substitution): Option<set<string>>
    decreases n, 4, 0
  {
    match v
    case Nullish => None
    case Unnamed => None
    case Literal(_) => None
    case Wrapper(_, inner) => Unfold(env, scope, n, context, inner, sub)
    case Union(bs) => UnfoldAll(env, scope, n, context, bs, sub, true)
    case Intersection(bs) => UnfoldAll(env, scope, n, context, bs, sub, false)
    case ObjectType(members, indexed) => if indexed then None else Some(NamesOf(members))
    case Builtin(members, complete) => if complete then Some(NamesOf(members)) else None
    case Selection(pick, source, keys) => Selected(pick, Unfold(env, scope, n, context, source, sub), Substitute(keys, sub))
    case Entity(entity) => UnfoldEntity(env, scope, n, entity)
    case Named(name, arguments) => UnfoldNamed(env, scope, n, context, name, arguments, sub)
  }

  /** Of a source's names the keys, or all others, if the keys are known. */
  function Selected(pick: bool, all: Option<set<string>>, keys: TypeTree): Option<set<string>> {
    if !KeysKnown(keys) || all.None? then None else Some(set name | name in all.value && IsKey(keys, name) == pick)
  }

  function UnfoldEntity(env: TypeEnvironment, scope: Scoping, n: nat, entity: string): Option<set<string>>
    decreases n, 3, 0
  {
    if entity == "" || entity !in env.entities || env.entities[entity] == [] then None
    else Both(UnfoldFiles(env, scope, n, env.entities[entity]), Some(NamesOf(RUNTIME_MEMBERS)))
  }

  function UnfoldNamed(env: TypeEnvironment, scope: Scoping, n: nat, context: string, name: string, arguments: seq<TypeTree>,
                       sub: Substitution): Option<set<string>>
    decreases n, 3, 0
  {
    if (context, name) !in env.declarations then None
    else
      var found := env.declarations[(context, name)];
      UnfoldDeclaration(env, scope, n, found.context, found.declaration,
                        Bound(scope, found.declaration.parameters, arguments, sub))
  }

  function UnfoldDeclaration(env: TypeEnvironment, scope: Scoping, n: nat, context: string, d: Declaration, child: Substitution)
    : Option<set<string>>
    decreases n, 2, 0
  {
    match d.alias
    case Some(alias) => Unfold(env, scope, n, context, alias, child)
    case None =>
      if !d.isInterface || d.isOpen then None
      else Both(UnfoldAll(env, scope, n, context, d.parents, child, false), Some(NamesOf(d.members)))
  }

  function UnfoldAll(env: TypeEnvironment, scope: Scoping, fuel: nat, context: string, ts: seq<TypeTree>, sub: Substitution,
                     skipNullish: bool): Option<set<string>>
    decreases fuel, 1, |ts|
  {
    if ts == [] then Some({})
    else
      var rest := UnfoldAll(env, scope, fuel, context, ts[1..], sub, skipNullish);
      if skipNullish && ts[0].Nullish? then rest else Both(Unfold(env, scope, fuel, context, ts[0], sub), rest)
  }

  function UnfoldFiles(env: TypeEnvironment, scope: Scoping, fuel: nat, files: seq<Located>): Option<set<string>>
    decreases fuel, 2, 1 + |files|
  {
    if files == [] then Some({})
    else if files[0].declaration.isOpen then None
    else
      var own := Some(NamesOf(files[0].declaration.members));
      Both(Both(own, UnfoldAll(env, scope, fuel, files[0].context, files[0].declaration.parents, map[], false)),
           UnfoldFiles(env, scope, fuel, files[1..]))
  }

  // ---- More fuel changes nothing.

  lemma {:induction false} UnfoldMore(env: TypeEnvironment, scope: Scoping, fuel: nat, more: nat, context: string, t: TypeTree, sub: Substitution)
    requires fuel <= more && Unfold(env, scope, fuel, context, t, sub).Some?
    ensures Unfold(env, scope, more, context, t, sub) == Unfold(env, scope, fuel, context, t, sub)
    decreases fuel, 0, 0
  {
    ValueMore(env, scope, fuel - 1, more - 1, context, Substitute(t, sub), sub);
  }

  lemma {:induction false} ValueMore(env: TypeEnvironment, scope: Scoping, n: nat, more: nat, context: string, v: TypeTree, sub: Substitution)
    requires n <= more && UnfoldValue(env, scope, n, context, v, sub).Some?
    ensures UnfoldValue(env, scope, more, context, v, sub) == UnfoldValue(env, scope, n, context, v, sub)
    decreases n, 4, 0
  {
    match v
    case Wrapper(_, inner) => UnfoldMore(env, scope, n, more, context, inner, sub);
    case Union(bs) => UnfoldAllMore(env, scope, n, more, context, bs, sub, true);
    case Intersection(bs) => UnfoldAllMore(env, scope, n, more, context, bs, sub, false);
    case Selection(_, source, _) => UnfoldMore(env, scope, n, more, context, source, sub);
    case Entity(entity) => UnfoldFilesMore(env, scope, n, more, env.entities[entity]);
    case Named(name, arguments) =>
      var found := env.declarations[(context, name)];
      DeclarationMore(env, scope, n, more, found.context, found.declaration,
                      Bound(scope, found.declaration.parameters, arguments, sub));
    case _ =>
  }

  lemma {:induction false} DeclarationMore(env: TypeEnvironment, scope: Scoping, n: nat, more: nat, context: string, d: Declaration,
                                          child: Substitution)
    requires n <= more && UnfoldDeclaration(env, scope, n, context, d, child).Some?
    ensures UnfoldDeclaration(env, scope, more, context, d, child) == UnfoldDeclaration(env, scope, n, context, d, child)
    decreases n, 2, 0
  {
    match d.alias
    case Some(alias) => UnfoldMore(env, scope, n, more, context, alias, child);
    case None => UnfoldAllMore(env, scope, n, more, context, d.parents, child, false);
  }

  lemma {:induction false} UnfoldAllMore(env: TypeEnvironment, scope: Scoping, fuel: nat, more: nat, context: string, ts: seq<TypeTree>,
                                        sub: Substitution, skipNullish: bool)
    requires fuel <= more && UnfoldAll(env, scope, fuel, context, ts, sub, skipNullish).Some?
    ensures UnfoldAll(env, scope, more, context, ts, sub, skipNullish) == UnfoldAll(env, scope, fuel, context, ts, sub, skipNullish)
    decreases fuel, 1, |ts|
  {
    if ts != [] {
      UnfoldAllMore(env, scope, fuel, more, context, ts[1..], sub, skipNullish);
      if !(skipNullish && ts[0].Nullish?) {
        UnfoldMore(env, scope, fuel, more, context, ts[0], sub);
      }
    }
  }

  lemma {:induction false} UnfoldFilesMore(env: TypeEnvironment, scope: Scoping, fuel: nat, more: nat, files: seq<Located>)
    requires fuel <= more && UnfoldFiles(env, scope, fuel, files).Some?
    ensures UnfoldFiles(env, scope, more, files) == UnfoldFiles(env, scope, fuel, files)
    decreases fuel, 2, 1 + |files|
  {
    if files != [] {
      UnfoldAllMore(env, scope, fuel, more, files[0].context, files[0].declaration.parents, map[], false);
      UnfoldFilesMore(env, scope, fuel, more, files[1..]);
    }
  }

  // ---- Entity interfaces taken for closed.

  function SealedFiles(files: seq<Located>): (r: seq<Located>)
    ensures |r| == |files|
  {
    if files == [] then []
    else [files[0].(declaration := files[0].declaration.(isOpen := false))] + SealedFiles(files[1..])
  }

  /** The environment as the resolver takes it: it never looks at the index signatures of an
      entity's interfaces. */
  function Sealed(env: TypeEnvironment): TypeEnvironment {
    env.(entities := map entity | entity in env.entities :: SealedFiles(env.entities[entity]))
  }

  lemma {:induction false} SealedFilesSame(files: seq<Located>)
    requires forall found :: found in files ==> !found.declaration.isOpen
    ensures SealedFiles(files) == files
  {
    if files != [] {
      assert files[0] in files && files == [files[0]] + files[1..];
      SealedFilesSame(files[1..]);
    }
  }

  /** Where no entity interface is open the reference is the environment itself. */
  lemma SealedIsItself(env: TypeEnvironment)
    requires forall entity, found :: entity in env.entities && found in env.entities[entity] ==> !found.declaration.isOpen
    ensures Sealed(env) == env
  {
    forall entity | entity in env.entities
      ensures SealedFiles(env.entities[entity]) == env.entities[entity]
    {
      SealedFilesSame(env.entities[entity]);
    }
  }

  lemma SealedFile(files: seq<Located>, found: Located) returns (original: Located)
    requires found in SealedFiles(files)
    ensures original in files && original.context == found.context
    ensures original.declaration.parents == found.declaration.parents
  {
    if SealedFiles(files)[0] == found {
      original := files[0];
    } else {
      original := SealedFile(files[1..], found);
    }
  }

  lemma SealedReady(env: TypeEnvironment, universe: set<Call>, context: string, t: TypeTree)
    requires Ready(env, universe, context, t, map[])
    ensures Ready(Sealed(env), universe, context, t, map[])
    ensures Scoped(Sealed(env), universe) == Scoped(env, universe)
  {
    forall call | call in universe && call.EntityCall?
      ensures EntityClosed(Sealed(env), universe, call.entity)
    {
      assert EntityClosed(env, universe, call.entity);
      if call.entity in env.entities {
        forall found, t | found in Sealed(env).entities[call.entity] && t in found.declaration.parents
          ensures ChildWithin(universe, found.context, t, map[])
        {
          var original := SealedFile(env.entities[call.entity], found);
        }
      }
    }
    forall call | call in universe && call.DeclarationCall?
      ensures Stable(call.sub) && DeclarationClosed(Sealed(env), universe, call)
    {
      assert DeclarationClosed(env, universe, call);
    }
  }

  // ---- When the callers' parameters do not matter.

  function Meaning(sub: Substitution, name: string): TypeTree {
    if name in sub then sub[name] else TypeTree.Named(name, [])
  }

  /** Two substitutions make the same of a type exactly when its free names mean the same in both. */
  lemma {:induction false} SubstituteAgreesIff(t: TypeTree, a: Substitution, b: Substitution)
    ensures Substitute(t, a) == Substitute(t, b) <==> forall name :: name in Free(t) ==> Meaning(a, name) == Meaning(b, name)
    decreases t, 0
  {
    match t
    case Union(bs) => SubstituteAllAgreesIff(bs, a, b);
    case Intersection(bs) => SubstituteAllAgreesIff(bs, a, b);
    case Wrapper(_, inner) => SubstituteAgreesIff(inner, a, b);
    case Selection(_, source, keys) =>
      SubstituteAgreesIff(source, a, b);
      SubstituteAgreesIff(keys, a, b);
    case Named(name, arguments) =>
      SubstituteAllAgreesIff(arguments, a, b);
      if arguments == [] {
        assert name in Free(t) && Substitute(t, a) == Meaning(a, name) && Substitute(t, b) == Meaning(b, name);
      } else {
        assert Substitute(t, a).arguments == SubstituteAll(arguments, a);
        assert Substitute(t, b).arguments == SubstituteAll(arguments, b);
      }
    case _ =>
  }

  lemma {:induction false} SubstituteAllAgreesIff(ts: seq<TypeTree>, a: Substitution, b: Substitution)
    ensures SubstituteAll(ts, a) == SubstituteAll(ts, b)
       <==> forall name :: name in FreeAll(ts) ==> Meaning(a, name) == Meaning(b, name)
    decreases ts, 1
  {
    if ts != [] {
      SubstituteAgreesIff(ts[0], a, b);
      SubstituteAllAgreesIff(ts[1..], a, b);
      var x, y := SubstituteAll(ts, a), SubstituteAll(ts, b);
      assert x[0] == Substitute(ts[0], a) && x[1..] == SubstituteAll(ts[1..], a);
      assert y[0] == Substitute(ts[0], b) && y[1..] == SubstituteAll(ts[1..], b);
      assert x == [x[0]] + x[1..] && y == [y[0]] + y[1..];
    }
  }

  /** What a declaration's child resolver substitutes: its own parameters over its callers'. */
  lemma {:induction false} ChildOverrides(parameters: seq<string>, arguments: seq<TypeTree>, sub: Substitution)
    ensures ChildSubstitution(parameters, arguments, sub) == sub + OwnSubstitution(parameters, arguments, sub)
  {
    if parameters != [] {
      ChildOverrides(parameters[..|parameters| - 1], arguments, sub);
    }
  }

  /** One step of the leak: a declaration's parent or alias is read with the callers' parameters as
      it would be with its own only, exactly when every name it mentions that only the callers
      bound stands for itself. */
  lemma LeakIff(parameters: seq<string>, arguments: seq<TypeTree>, sub: Substitution, t: TypeTree)
    ensures var own := OwnSubstitution(parameters, arguments, sub);
            Substitute(t, ChildSubstitution(parameters, arguments, sub)) == Substitute(t, own)
            <==> forall name :: name in Free(t) && name in sub && name !in own ==> sub[name] == TypeTree.Named(name, [])
  {
    var own, child := OwnSubstitution(parameters, arguments, sub), ChildSubstitution(parameters, arguments, sub);
    ChildOverrides(parameters, arguments, sub);
    SubstituteAgreesIff(t, child, own);
    forall name | name in Free(t)
      ensures Meaning(child, name) == Meaning(own, name)
         <==> (name in sub && name !in own ==> sub[name] == TypeTree.Named(name, []))
    {
    }
  }

  /** The calls the resolver makes never meet a name that only the callers bound. (A stable
      substitution maps no name to itself, so by LeakIff nothing less will do.) */
  predicate Scoped(env: TypeEnvironment, universe: set<Call>) {
    forall call :: call in universe && call.DeclarationCall? && (call.context, call.name) in env.declarations ==>
      CallScoped(env.declarations[(call.context, call.name)].declaration, call.arguments, call.sub)
  }

  predicate CallScoped(d: Declaration, arguments: seq<TypeTree>, sub: Substitution) {
    forall t :: t in Children(d) ==> Covers(t, OwnSubstitution(d.parameters, arguments, sub), sub)
  }

  /** The type mentions no name that only the callers bound. */
  predicate Covers(t: TypeTree, own: Substitution, sub: Substitution) {
    forall name :: name in Free(t) && name in sub ==> name in own
  }

  /** Read off the declarations: each mentions, of all the parameter names there are, only its own. */
  predicate Hygienic(env: TypeEnvironment) {
    forall k, t, name :: k in env.declarations && t in Children(env.declarations[k].declaration) && name in Free(t)
                         && IsParameter(env, name) ==>
      name in env.declarations[k].declaration.parameters
  }

  predicate IsParameter(env: TypeEnvironment, name: string) {
    exists k :: k in env.declarations && name in env.declarations[k].declaration.parameters
  }

  /** Calls bind parameter names only, and give every parameter its argument. */
  predicate Supplied(env: TypeEnvironment, universe: set<Call>) {
    forall call :: call in universe && call.DeclarationCall? ==>
      && (forall name :: name in call.sub ==> IsParameter(env, name))
      && ((call.context, call.name) in env.declarations ==>
            |env.declarations[(call.context, call.name)].declaration.parameters| <= |call.arguments|)
  }

  lemma {:induction false} OwnBindsAll(parameters: seq<string>, arguments: seq<TypeTree>, sub: Substitution)
    requires |parameters| <= |arguments|
    ensures forall name :: name in parameters ==> name in OwnSubstitution(parameters, arguments, sub)
  {
    if parameters != [] {
      OwnBindsAll(parameters[..|parameters| - 1], arguments, sub);
    }
  }

  lemma HygienicIsScoped(env: TypeEnvironment, universe: set<Call>)
    requires Hygienic(env) && Supplied(env, universe)
    ensures Scoped(env, universe)
  {
    forall call | call in universe && call.DeclarationCall? && (call.context, call.name) in env.declarations
      ensures CallScoped(env.declarations[(call.context, call.name)].declaration, call.arguments, call.sub)
    {
      var d := env.declarations[(call.context, call.name)].declaration;
      OwnBindsAll(d.parameters, call.arguments, call.sub);
    }
  }

  predicate Restricts(own: Substitution, sub: Substitution) {
    forall name :: name in own ==> name in sub && own[name] == sub[name]
  }

  lemma CoveredSubstitution(t: TypeTree, own: Substitution, sub: Substitution)
    requires Restricts(own, sub) && Covers(t, own, sub)
    ensures Substitute(t, own) == Substitute(t, sub)
  {
    SubstituteAgreesIff(t, own, sub);
  }

  /** The two unfoldings of a type, under the callers' substitution and under its own part of it. */
  lemma {:induction false} ScopesAgree(env: TypeEnvironment, universe: set<Call>, fuel: nat, context: string, t: TypeTree,
                                      own: Substitution, sub: Substitution)
    requires Ready(env, universe, context, t, sub) && Scoped(env, universe) && Restricts(own, sub) && Covers(t, own, sub)
    ensures Unfold(env, Lexical, fuel, context, t, own) == Unfold(env, Inherited, fuel, context, t, sub)
    decreases fuel, 0, 0
  {
    if fuel > 0 {
      CoveredSubstitution(t, own, sub);
      ValueIsReady(env, universe, context, t, sub);
      ValueScopes(env, universe, fuel - 1, context, Substitute(t, sub), own, sub);
    }
  }

  lemma {:induction false} ValueScopes(env: TypeEnvironment, universe: set<Call>, n: nat, context: string, v: TypeTree,
                                      own: Substitution, sub: Substitution)
    requires ReadyValue(env, universe, context, v, sub) && Scoped(env, universe) && Restricts(own, sub)
    ensures UnfoldValue(env, Lexical, n, context, v, own) == UnfoldValue(env, Inherited, n, context, v, sub)
    decreases n, 4, 0
  {
    match v
    case Wrapper(_, inner) =>
      AgainReady(env, universe, context, inner, sub);
      ScopesAgree(env, universe, n, context, inner, own, sub);
    case Union(bs) =>
      BranchesReady(env, universe, context, bs, own, sub);
      AllScopes(env, universe, n, context, bs, own, sub, true);
    case Intersection(bs) =>
      BranchesReady(env, universe, context, bs, own, sub);
      AllScopes(env, universe, n, context, bs, own, sub, false);
    case Selection(_, source, keys) =>
      AgainReady(env, universe, context, source, sub);
      ScopesAgree(env, universe, n, context, source, own, sub);
      CoveredSubstitution(keys, own, sub);
    case Entity(entity) =>
      if entity in env.entities {
        FilesReady(env, universe, entity);
        FilesScopes(env, universe, n, env.entities[entity]);
      }
    case Named(name, arguments) =>
      NamedScopes(env, universe, n, context, name, arguments, own, sub);
    case _ =>
  }

  lemma {:induction false} BranchesReady(env: TypeEnvironment, universe: set<Call>, context: string, bs: seq<TypeTree>,
                                        own: Substitution, sub: Substitution)
    requires ReadyAll(env, universe, context, bs, sub)
    ensures ParentsReady(env, universe, context, bs, sub) && forall b :: b in bs ==> Covers(b, own, sub)
    decreases |bs|
  {
    if bs != [] {
      AgainReady(env, universe, context, bs[0], sub);
      BranchesReady(env, universe, context, bs[1..], own, sub);
      assert bs == [bs[0]] + bs[1..];
    }
  }

  lemma {:induction false} AllScopes(env: TypeEnvironment, universe: set<Call>, fuel: nat, context: string, ts: seq<TypeTree>,
                                    own: Substitution, sub: Substitution, skipNullish: bool)
    requires ParentsReady(env, universe, context, ts, sub) && Scoped(env, universe) && Restricts(own, sub)
    requires forall t :: t in ts ==> Covers(t, own, sub)
    ensures UnfoldAll(env, Lexical, fuel, context, ts, own, skipNullish) == UnfoldAll(env, Inherited, fuel, context, ts, sub, skipNullish)
    decreases fuel, 1, |ts|
  {
    if ts != [] {
      assert ts[0] in ts && forall t :: t in ts[1..] ==> t in ts;
      ScopesAgree(env, universe, fuel, context, ts[0], own, sub);
      AllScopes(env, universe, fuel, context, ts[1..], own, sub, skipNullish);
    }
  }

  lemma {:induction false} FilesScopes(env: TypeEnvironment, universe: set<Call>, fuel: nat, files: seq<Located>)
    requires AllFilesReady(env, universe, files) && Scoped(env, universe)
    ensures UnfoldFiles(env, Lexical, fuel, files) == UnfoldFiles(env, Inherited, fuel, files)
    decreases fuel, 2, 1 + |files|
  {
    if files != [] {
      assert files[0] in files && forall found :: found in files[1..] ==> found in files;
      AllScopes(env, universe, fuel, files[0].context, files[0].declaration.parents, map[], map[], false);
      FilesScopes(env, universe, fuel, files[1..]);
    }
  }

  lemma {:induction false} NamedScopes(env: TypeEnvironment, universe: set<Call>, n: nat, context: string, name: string,
                                      arguments: seq<TypeTree>, own: Substitution, sub: Substitution)
    requires ReadyValue(env, universe, context, TypeTree.Named(name, arguments), sub) && Scoped(env, universe) && Restricts(own, sub)
    ensures UnfoldNamed(env, Lexical, n, context, name, arguments, own) == UnfoldNamed(env, Inherited, n, context, name, arguments, sub)
    decreases n, 3, 0
  {
    if (context, name) in env.declarations {
      var call := DeclarationCall(context, name, arguments, sub);
      var found := env.declarations[(context, name)];
      var d := found.declaration;
      var inner, child := OwnSubstitution(d.parameters, arguments, own), ChildSubstitution(d.parameters, arguments, sub);
      SameArguments(d.parameters, arguments, own, sub);
      ChildOverrides(d.parameters, arguments, sub);
      ChildrenReady(env, universe, call);
      assert CallScoped(d, arguments, sub);
      assert DeclarationClosed(env, universe, call);
      if d.alias.Some? {
        ChildIsReady(env, universe, call, d.alias.value);
        assert d.alias.value in Children(d);
        ScopesAgree(env, universe, n, found.context, d.alias.value, inner, child);
      } else {
        forall t | t in d.parents
          ensures Covers(t, inner, child)
        {
          assert t in Children(d);
        }
        AllScopes(env, universe, n, found.context, d.parents, inner, child, false);
      }
    }
  }

  /** Arguments are already substituted, so that it does not matter what they are substituted with. */
  lemma {:induction false} SameArguments(parameters: seq<string>, arguments: seq<TypeTree>, own: Substitution, sub: Substitution)
    requires Restricts(own, sub) && FreeAll(arguments) !! sub.Keys
    ensures OwnSubstitution(parameters, arguments, own) == OwnSubstitution(parameters, arguments, sub)
    decreases |parameters|
  {
    if parameters != [] {
      var n := |parameters| - 1;
      SameArguments(parameters[..n], arguments, own, sub);
      if n < |arguments| {
        FreeOfOne(arguments, n);
        CoveredSubstitution(arguments[n], own, sub);
      }
    }
  }

  lemma {:induction false} FreeOfOne(ts: seq<TypeTree>, i: nat)
    requires i < |ts|
    ensures Free(ts[i]) <= FreeAll(ts)
  {
    if i > 0 {
      FreeOfOne(ts[1..], i - 1);
    }
  }
}
