/** The other half of what `Complete` promises: an answer is complete whenever the guard-free
    unfolding succeeds (internal/admin/type_resolver.go:16-305, type_index.go:924-979). */
module TypeConverse {
  import opened TypeResolver
  import opened TypeUnfolding
  import opened TypeCompleteness

  /** The call unfolds with so much fuel. */
  ghost predicate Answered(ref: TypeEnvironment, call: Call, n: nat) {
    match call
    case DeclarationCall(context, name, arguments, sub) => UnfoldNamed(ref, Inherited, n, context, name, arguments, sub).Some?
    case EntityCall(entity) => UnfoldEntity(ref, Inherited, n, entity).Some?
  }

  /** Calls that the guard takes for the same unfold alike. */
  ghost predicate AnswersAlike(ref: TypeEnvironment, universe: set<Call>) {
    forall c, d, n: nat :: c in universe && d in universe && KeyOf(c) == KeyOf(d) ==> (Answered(ref, c, n) <==> Answered(ref, d, n))
  }

  /** No call that is guarded unfolds with so much fuel. */
  ghost predicate Pending(ref: TypeEnvironment, universe: set<Call>, seen: set<Key>, n: nat) {
    forall call :: call in universe && KeyOf(call) in seen ==> !Answered(ref, call, n)
  }

  lemma AnsweredMore(ref: TypeEnvironment, call: Call, n: nat, more: nat)
    requires n <= more && Answered(ref, call, n)
    ensures Answered(ref, call, more)
  {
    hide UnfoldNamed, UnfoldEntity, UnfoldAll, Unfold;
    match call
    case DeclarationCall(context, name, arguments, sub) =>
      ValueMore(ref, Inherited, n, more, context, TypeTree.Named(name, arguments), sub);
    case EntityCall(entity) =>
      ValueMore(ref, Inherited, n, more, "", TypeTree.Entity(entity), map[]);
  }

  lemma PendingLess(ref: TypeEnvironment, universe: set<Call>, seen: set<Key>, less: nat, n: nat)
    requires less <= n && Pending(ref, universe, seen, n)
    ensures Pending(ref, universe, seen, less)
  {
    forall call | call in universe && KeyOf(call) in seen ensures !Answered(ref, call, less) {
      if Answered(ref, call, less) {
        AnsweredMore(ref, call, less, n);
      }
    }
  }

  /** The least fuel the call unfolds with. */
  lemma {:induction false} LeastFuel(ref: TypeEnvironment, call: Call, n: nat) returns (least: nat)
    requires Answered(ref, call, n)
    ensures least <= n && Answered(ref, call, least) && forall m: nat :: m < least ==> !Answered(ref, call, m)
  {
    hide Answered;
    if n > 0 && Answered(ref, call, n - 1) {
      least := LeastFuel(ref, call, n - 1);
    } else {
      least := n;
      forall m: nat | m < n ensures !Answered(ref, call, m) {
        if Answered(ref, call, m) {
          AnsweredMore(ref, call, m, n - 1);
        }
      }
    }
  }

  /** Guarding a call at its least fuel leaves nothing guarded that unfolds with less. */
  lemma PendingInside(ref: TypeEnvironment, universe: set<Call>, seen: set<Key>, call: Call, n: nat, least: nat)
    requires call in universe && AnswersAlike(ref, universe) && Pending(ref, universe, seen, n) && least <= n
    requires forall m: nat :: m < least ==> !Answered(ref, call, m)
    ensures least > 0 ==> Pending(ref, universe, seen + {KeyOf(call)}, least - 1)
  {
    if least > 0 {
      PendingLess(ref, universe, seen, least - 1, n);
    }
  }

  // ---- What unfolds is complete.

  lemma {:induction false} ResolveComplete(env: TypeEnvironment, universe: set<Call>, fuel: nat, context: string, t: TypeTree,
                                          sub: Substitution, seen: set<Key>)
    requires Ready(env, universe, context, t, sub) && AnswersAlike(Sealed(env), universe)
    requires Unfold(Sealed(env), Inherited, fuel, context, t, sub).Some? && Pending(Sealed(env), universe, seen, fuel - 1)
    ensures Resolve(env, universe, context, t, sub, seen).complete
    decreases fuel, 0, 0
  {
    ValueIsReady(env, universe, context, t, sub);
    ValueComplete(env, universe, fuel - 1, context, Substitute(t, sub), sub, seen);
  }

  lemma {:induction false} ValueComplete(env: TypeEnvironment, universe: set<Call>, n: nat, context: string, v: TypeTree,
                                        sub: Substitution, seen: set<Key>)
    requires ReadyValue(env, universe, context, v, sub) && AnswersAlike(Sealed(env), universe)
    requires UnfoldValue(Sealed(env), Inherited, n, context, v, sub).Some? && Pending(Sealed(env), universe, seen, n)
    ensures ResolveValue(env, universe, context, v, sub, seen).complete
    decreases n, 4, 0
  {
    hide UnfoldEntity;
    var ref := Sealed(env);
    match v
    case Wrapper(_, inner) =>
      AgainReady(env, universe, context, inner, sub);
      PendingLess(ref, universe, seen, n - 1, n);
      ResolveComplete(env, universe, n, context, inner, sub, seen);
    case Union(bs) => BranchesComplete(env, universe, n, context, bs, sub, seen);
    case Intersection(bs) => IntersectionComplete(env, universe, n, context, bs, sub, seen, Shape([], true));
    case Selection(_, source, keys) =>
      AgainReady(env, universe, context, source, sub);
      PendingLess(ref, universe, seen, n - 1, n);
      ResolveComplete(env, universe, n, context, source, sub, seen);
      KeyNamesAre(Substitute(keys, sub));
    case Entity(entity) => EntityComplete(env, universe, n, entity, seen);
    case Named(name, arguments) => NamedComplete(env, universe, n, context, name, arguments, sub, seen);
    case _ =>
  }

  lemma {:induction false} BranchesComplete(env: TypeEnvironment, universe: set<Call>, fuel: nat, context: string, bs: seq<TypeTree>,
                                           sub: Substitution, seen: set<Key>)
    requires ReadyAll(env, universe, context, bs, sub) && AnswersAlike(Sealed(env), universe)
    requires UnfoldAll(Sealed(env), Inherited, fuel, context, bs, sub, true).Some? && Pending(Sealed(env), universe, seen, fuel)
    ensures AllComplete(ResolveBranches(env, universe, context, bs, sub, seen))
    decreases fuel, 1, |bs|
  {
    if bs != [] {
      AgainReady(env, universe, context, bs[0], sub);
      BranchesComplete(env, universe, fuel, context, bs[1..], sub, seen);
      var rest := ResolveBranches(env, universe, context, bs[1..], sub, seen);
      if bs[0].Nullish? {
        assert [] + rest == rest;
      } else {
        PendingLess(Sealed(env), universe, seen, fuel - 1, fuel);
        ResolveComplete(env, universe, fuel, context, bs[0], sub, seen);
        ShapeNamesFront(Resolve(env, universe, context, bs[0], sub, seen), rest);
      }
    }
  }

  lemma {:induction false} IntersectionComplete(env: TypeEnvironment, universe: set<Call>, fuel: nat, context: string, bs: seq<TypeTree>,
                                               sub: Substitution, seen: set<Key>, result: Shape)
    requires ReadyAll(env, universe, context, bs, sub) && AnswersAlike(Sealed(env), universe) && result.complete
    requires UnfoldAll(Sealed(env), Inherited, fuel, context, bs, sub, false).Some? && Pending(Sealed(env), universe, seen, fuel)
    ensures ResolveIntersection(env, universe, context, bs, sub, seen, result).complete
    decreases fuel, 1, |bs|
  {
    if bs != [] {
      AgainReady(env, universe, context, bs[0], sub);
      PendingLess(Sealed(env), universe, seen, fuel - 1, fuel);
      ResolveComplete(env, universe, fuel, context, bs[0], sub, seen);
      IntersectionComplete(env, universe, fuel, context, bs[1..], sub, seen, Meet(result, Resolve(env, universe, context, bs[0], sub, seen)));
    }
  }

  lemma {:induction false} ParentsComplete(env: TypeEnvironment, universe: set<Call>, fuel: nat, context: string, parents: seq<TypeTree>,
                                          sub: Substitution, seen: set<Key>, result: Shape)
    requires ParentsReady(env, universe, context, parents, sub) && AnswersAlike(Sealed(env), universe) && result.complete
    requires UnfoldAll(Sealed(env), Inherited, fuel, context, parents, sub, false).Some?
    requires fuel > 0 ==> Pending(Sealed(env), universe, seen, fuel - 1)
    ensures ResolveParents(env, universe, context, parents, sub, seen, result).complete
    decreases fuel, 1, |parents|
  {
    if parents != [] {
      ResolveComplete(env, universe, fuel, context, parents[0], sub, seen);
      ParentsComplete(env, universe, fuel, context, parents[1..], sub, seen, Inherit(result, Resolve(env, universe, context, parents[0], sub, seen)));
    }
  }

  lemma {:induction false} NamedComplete(env: TypeEnvironment, universe: set<Call>, n: nat, context: string, name: string,
                                        arguments: seq<TypeTree>, sub: Substitution, seen: set<Key>)
    requires Closed(env, universe) && DeclarationCall(context, name, arguments, sub) in universe && AnswersAlike(Sealed(env), universe)
    requires UnfoldNamed(Sealed(env), Inherited, n, context, name, arguments, sub).Some? && Pending(Sealed(env), universe, seen, n)
    ensures ResolveDeclaration(env, universe, context, name, arguments, sub, seen).complete
    decreases n, 3, 0
  {
    var ref, call := Sealed(env), DeclarationCall(context, name, arguments, sub);
    assert Answered(ref, call, n) && KeyOf(call) !in seen;
    var least := LeastFuel(ref, call, n);
    PendingInside(ref, universe, seen, call, n, least);
    var found := env.declarations[(context, name)];
    var d := found.declaration;
    var child, guard := ChildSubstitution(d.parameters, arguments, sub), seen + {KeyOf(call)};
    GuardShrinks(universe, seen, call);
    ChildrenReady(env, universe, call);
    assert UnfoldDeclaration(ref, Inherited, least, found.context, d, child).Some?;
    if d.alias.Some? {
      ChildIsReady(env, universe, call, d.alias.value);
      ResolveComplete(env, universe, least, found.context, d.alias.value, child, guard);
    } else {
      ParentsComplete(env, universe, least, found.context, d.parents, child, guard, Shape(d.members, d.isInterface && !d.isOpen));
    }
  }

  lemma {:induction false} FilesComplete(env: TypeEnvironment, universe: set<Call>, fuel: nat, files: seq<Located>, seen: set<Key>,
                                        result: Shape)
    requires AllFilesReady(env, universe, files) && AnswersAlike(Sealed(env), universe) && result.complete
    requires UnfoldFiles(Sealed(env), Inherited, fuel, SealedFiles(files)).Some?
    requires fuel > 0 ==> Pending(Sealed(env), universe, seen, fuel - 1)
    ensures ResolveFiles(env, universe, files, seen, result).complete
    decreases fuel, 2, 1 + |files|
  {
    if files != [] {
      assert files[0] in files && SealedFiles(files)[1..] == SealedFiles(files[1..]);
      var context, d := files[0].context, files[0].declaration;
      var own := Shape(MergeMembers(result.members, d.members), result.complete);
      ParentsComplete(env, universe, fuel, context, d.parents, map[], seen, own);
      FilesComplete(env, universe, fuel, files[1..], seen, ResolveParents(env, universe, context, d.parents, map[], seen, own));
    }
  }

  lemma {:induction false} EntityComplete(env: TypeEnvironment, universe: set<Call>, n: nat, entity: string, seen: set<Key>)
    requires Closed(env, universe) && EntityCall(entity) in universe && AnswersAlike(Sealed(env), universe)
    requires UnfoldEntity(Sealed(env), Inherited, n, entity).Some? && Pending(Sealed(env), universe, seen, n)
    ensures ResolveEntity(env, universe, entity, seen).complete
    decreases n, 3, 0
  {
    var ref, call := Sealed(env), EntityCall(entity);
    assert Answered(ref, call, n) && KeyOf(call) !in seen;
    var least := LeastFuel(ref, call, n);
    PendingInside(ref, universe, seen, call, n, least);
    GuardShrinks(universe, seen, call);
    FilesReady(env, universe, entity);
    FilesComplete(env, universe, least, env.entities[entity], seen + {KeyOf(call)}, Shape([], true));
  }

  ghost predicate Unfolds(ref: TypeEnvironment, scope: Scoping, context: string, t: TypeTree, sub: Substitution) {
    exists fuel: nat :: UnfoldsBy(ref, scope, fuel, context, t, sub)
  }

  predicate UnfoldsBy(ref: TypeEnvironment, scope: Scoping, fuel: nat, context: string, t: TypeTree, sub: Substitution) {
    Unfold(ref, scope, fuel, context, t, sub).Some?
  }

  /** The resolver answers completely exactly if the type unfolds, given that calls with the same key
      unfold alike. */
  lemma CompleteIff(env: TypeEnvironment, universe: set<Call>, context: string, t: TypeTree, sub: Substitution)
    requires Ready(env, universe, context, t, sub) && AliasesParsed(env) && AnswersAlike(Sealed(env), universe)
    ensures Resolve(env, universe, context, t, sub, {}).complete <==> Unfolds(Sealed(env), Inherited, context, t, sub)
  {
    if Resolve(env, universe, context, t, sub, {}).complete {
      var fuel := ResolveEarned(env, Sealed(env), universe, context, t, sub, {});
      assert UnfoldsBy(Sealed(env), Inherited, fuel, context, t, sub);
    }
    if fuel: nat :| UnfoldsBy(Sealed(env), Inherited, fuel, context, t, sub) {
      ResolveComplete(env, universe, fuel, context, t, sub, {});
    }
  }

  /** The calls' types mention none of the names their substitution replaces, as substituting leaves
      them. */
  ghost predicate ArgumentsClear(universe: set<Call>) {
    forall call :: call in universe && call.DeclarationCall? ==> Free(TypeTree.Named(call.name, call.arguments)) !! call.sub.Keys
  }

  /** Calls with the same key unfold alike where no declaration met mentions a name that only its
      callers bound. */
  lemma ScopedAlike(env: TypeEnvironment, universe: set<Call>)
    requires Closed(env, universe) && Scoped(env, universe) && ArgumentsClear(universe)
    ensures AnswersAlike(Sealed(env), universe)
  {
    var ref := Sealed(env);
    SealedReady(env, universe, "", TypeTree.Nullish);
    forall c, d, n: nat | c in universe && d in universe && KeyOf(c) == KeyOf(d)
      ensures Answered(ref, c, n) <==> Answered(ref, d, n)
    {
      if c.DeclarationCall? {
        LexicalAnswer(ref, universe, c, n);
        LexicalAnswer(ref, universe, d, n);
      }
    }
  }

  lemma LexicalAnswer(ref: TypeEnvironment, universe: set<Call>, call: Call, n: nat)
    requires Closed(ref, universe) && Scoped(ref, universe) && ArgumentsClear(universe)
    requires call in universe && call.DeclarationCall?
    ensures Answered(ref, call, n) <==> UnfoldNamed(ref, Lexical, n, call.context, call.name, call.arguments, map[]).Some?
  {
    NamedScopes(ref, universe, n, call.context, call.name, call.arguments, map[], call.sub);
  }

  /** So there a complete answer and an unfolding in which every declaration sees its own parameters
      only are the same thing. */
  lemma CompleteExactly(env: TypeEnvironment, universe: set<Call>, context: string, t: TypeTree)
    requires Ready(env, universe, context, t, map[]) && AliasesParsed(env) && Scoped(env, universe) && ArgumentsClear(universe)
    ensures Resolve(env, universe, context, t, map[], {}).complete <==> Unfolds(Sealed(env), Lexical, context, t, map[])
  {
    ScopedAlike(env, universe);
    CompleteIff(env, universe, context, t, map[]);
    SealedReady(env, universe, context, t);
    forall fuel: nat
      ensures UnfoldsBy(Sealed(env), Lexical, fuel, context, t, map[]) <==> UnfoldsBy(Sealed(env), Inherited, fuel, context, t, map[])
    {
      ScopesAgree(Sealed(env), universe, fuel, context, t, map[], map[]);
    }
  }
}
