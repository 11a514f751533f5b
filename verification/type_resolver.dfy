/** The cycle-guarded structural type resolver: internal/admin/type_resolver.go:16-305,
    type_index.go:924-979 and 1327-1369. Types are trees here; a member is its name and
    whether it is optional. */
module TypeResolver {
  import opened AdminModel
  import opened Overlay
  import opened StableSort

  datatype TypeMember = TypeMember(name: string, optional: bool)

  datatype WrapperKind = Readonly | Partial | Required | NonNullable | PropType

  /** A type expression as the resolver takes it apart. `Builtin` stands for every shape that is
      fixed by the index: arrays, repositories, collections and JavaScript classes. */
  datatype TypeTree =
    | Nullish
    | Unnamed
    | Literal(text: string)
    | Union(branches: seq<TypeTree>)
    | Intersection(branches: seq<TypeTree>)
    | ObjectType(members: seq<TypeMember>, indexed: bool)
    | Wrapper(kind: WrapperKind, inner: TypeTree)
    | Selection(pick: bool, source: TypeTree, keys: TypeTree)
    | Builtin(members: seq<TypeMember>, complete: bool)
    | Entity(entity: string)
    | Named(name: string, arguments: seq<TypeTree>)

  type Substitution = map<string, TypeTree>

  datatype Declaration = Declaration(parameters: seq<string>, members: seq<TypeMember>, parents: seq<TypeTree>,
                                     alias: Option<TypeTree>, isInterface: bool, isOpen: bool)

  datatype Located = Located(declaration: Declaration, context: string)

  /** What the index answers: the declaration a name means in a file, and the interfaces of a
      name in every file. */
  datatype TypeEnvironment = TypeEnvironment(declarations: map<(string, string), Located>, entities: map<string, seq<Located>>)

  datatype Shape = Shape(members: seq<TypeMember>, complete: bool)

  // ---- Trees.

  function Size(t: TypeTree): (n: nat)
    ensures n >= 1
    decreases t, 0
  {
    match t
    case Union(bs) => 1 + SizeAll(bs)
    case Intersection(bs) => 1 + SizeAll(bs)
    case Wrapper(_, inner) => 1 + Size(inner)
    case Selection(_, source, keys) => 1 + Size(source) + Size(keys)
    case Named(_, arguments) => 1 + SizeAll(arguments)
    case _ => 1
  }

  function SizeAll(ts: seq<TypeTree>): nat
    decreases ts, 1
  {
    if ts == [] then 0 else Size(ts[0]) + SizeAll(ts[1..])
  }

  /** The bare names a substitution can replace. */
  function Free(t: TypeTree): set<string>
    decreases t, 0
  {
    match t
    case Union(bs) => FreeAll(bs)
    case Intersection(bs) => FreeAll(bs)
    case Wrapper(_, inner) => Free(inner)
    case Selection(_, source, keys) => Free(source) + Free(keys)
    case Named(name, arguments) => if arguments == [] then {name} else FreeAll(arguments)
    case _ => {}
  }

  function FreeAll(ts: seq<TypeTree>): set<string>
    decreases ts, 1
  {
    if ts == [] then {} else Free(ts[0]) + FreeAll(ts[1..])
  }

  function Substitute(t: TypeTree, sub: Substitution): TypeTree
    decreases t, 0
  {
    match t
    case Union(bs) => Union(SubstituteAll(bs, sub))
    case Intersection(bs) => Intersection(SubstituteAll(bs, sub))
    case Wrapper(kind, inner) => Wrapper(kind, Substitute(inner, sub))
    case Selection(pick, source, keys) => Selection(pick, Substitute(source, sub), Substitute(keys, sub))
    case Named(name, arguments) =>
      if arguments == [] then if name in sub then sub[name] else t
      else Named(name, SubstituteAll(arguments, sub))
    case _ => t
  }

  function SubstituteAll(ts: seq<TypeTree>, sub: Substitution): (r: seq<TypeTree>)
    ensures |r| == |ts|
    decreases ts, 1
  {
    if ts == [] then [] else [Substitute(ts[0], sub)] + SubstituteAll(ts[1..], sub)
  }

  /** No replacement mentions a replaced name, so that substituting again changes nothing. */
  predicate Stable(sub: Substitution) {
    forall k :: k in sub ==> Free(sub[k]) !! sub.Keys
  }

  lemma {:induction false} SubstituteClears(t: TypeTree, sub: Substitution)
    requires Stable(sub)
    ensures Free(Substitute(t, sub)) !! sub.Keys
    decreases t, 0
  {
    match t
    case Union(bs) => SubstituteAllClears(bs, sub);
    case Intersection(bs) => SubstituteAllClears(bs, sub);
    case Wrapper(_, inner) => SubstituteClears(inner, sub);
    case Selection(_, source, keys) =>
      SubstituteClears(source, sub);
      SubstituteClears(keys, sub);
    case Named(_, arguments) => if arguments != [] { SubstituteAllClears(arguments, sub); }
    case _ =>
  }

  lemma {:induction false} SubstituteAllClears(ts: seq<TypeTree>, sub: Substitution)
    requires Stable(sub)
    ensures FreeAll(SubstituteAll(ts, sub)) !! sub.Keys
    decreases ts, 1
  {
    if ts != [] {
      SubstituteClears(ts[0], sub);
      SubstituteAllClears(ts[1..], sub);
      assert ([Substitute(ts[0], sub)] + SubstituteAll(ts[1..], sub))[1..] == SubstituteAll(ts[1..], sub);
    }
  }

  lemma {:induction false} SubstituteNothing(t: TypeTree, sub: Substitution)
    requires Free(t) !! sub.Keys
    ensures Substitute(t, sub) == t
    decreases t, 0
  {
    match t
    case Union(bs) => SubstituteAllNothing(bs, sub);
    case Intersection(bs) => SubstituteAllNothing(bs, sub);
    case Wrapper(_, inner) => SubstituteNothing(inner, sub);
    case Selection(_, source, keys) =>
      SubstituteNothing(source, sub);
      SubstituteNothing(keys, sub);
    case Named(_, arguments) => if arguments != [] { SubstituteAllNothing(arguments, sub); }
    case _ =>
  }

  lemma {:induction false} SubstituteAllNothing(ts: seq<TypeTree>, sub: Substitution)
    requires FreeAll(ts) !! sub.Keys
    ensures SubstituteAll(ts, sub) == ts
    decreases ts, 1
  {
    if ts != [] {
      SubstituteNothing(ts[0], sub);
      SubstituteAllNothing(ts[1..], sub);
    }
  }

  // ---- Member lists.

  const TYPE_MEMBERS := Policy((x: TypeMember) => x.name, (x: TypeMember, y: TypeMember) => y, false)
  const UNION_MEMBERS := Policy((x: TypeMember) => x.name,
                                (x: TypeMember, y: TypeMember) => x.(optional := x.optional || y.optional), true)

  predicate NameLess(a: TypeMember, b: TypeMember) {
    StringLess(a.name, b.name)
  }

  /** mergeTwigVueMembers */
  function MergeMembers(base: seq<TypeMember>, overlay: seq<TypeMember>): seq<TypeMember> {
    SortStable(Lay(base, overlay, TYPE_MEMBERS), NameLess)
  }

  method MergeTwigVueMembers(base: seq<TypeMember>, overlay: seq<TypeMember>) returns (result: seq<TypeMember>)
    ensures result == MergeMembers(base, overlay)
  {
    result := OverlayLoop(base, overlay, TYPE_MEMBERS);
    result := SortStable(result, NameLess);
  }

  /** The first member of each name. */
  function Distinct(members: seq<TypeMember>): seq<TypeMember> {
    if members == [] then []
    else
      var init, x := Distinct(members[..|members| - 1]), members[|members| - 1];
      if x.name == "" || Holds(init, x.name) then init else init + [x]
  }

  predicate Holds(members: seq<TypeMember>, name: string) {
    exists i :: 0 <= i < |members| && members[i].name == name
  }

  function Collect(shapes: seq<Shape>): seq<TypeMember> {
    if shapes == [] then []
    else Lay(Collect(shapes[..|shapes| - 1]), Distinct(shapes[|shapes| - 1].members), UNION_MEMBERS)
  }

  /** How many shapes have a member of the name. */
  function Presence(shapes: seq<Shape>, name: string): nat {
    if shapes == [] then 0
    else Presence(shapes[..|shapes| - 1], name) + if Holds(shapes[|shapes| - 1].members, name) then 1 else 0
  }

  function MarkMissing(members: seq<TypeMember>, shapes: seq<Shape>): (r: seq<TypeMember>)
    ensures |r| == |members|
  {
    seq(|members|, i requires 0 <= i < |members| =>
      members[i].(optional := members[i].optional || Presence(shapes, members[i].name) < |shapes|))
  }

  /** unionVueTypeMembers */
  function UnionMembers(shapes: seq<Shape>): seq<TypeMember> {
    SortStable(MarkMissing(Collect(shapes), shapes), NameLess)
  }

  /** The names of a member list. */
  function NamesOf(members: seq<TypeMember>): set<string> {
    set m | m in members && m.name != "" :: m.name
  }

  lemma NamesOfIff(members: seq<TypeMember>, name: string)
    ensures name in NamesOf(members) <==> name != "" && Holds(members, name)
  {
    if name in NamesOf(members) {
      var m :| m in members && m.name == name;
      var i :| 0 <= i < |members| && members[i] == m;
      assert members[i].name == name;
    }
  }

  lemma SortedNames(members: seq<TypeMember>)
    ensures NamesOf(SortStable(members, NameLess)) == NamesOf(members)
  {
    forall m ensures m in SortStable(members, NameLess) <==> m in members {
      SortKeeps(members, NameLess, m);
    }
  }

  lemma KeysHold(members: seq<TypeMember>, p: Policy<TypeMember>, name: string)
    requires p == TYPE_MEMBERS || p == UNION_MEMBERS
    ensures name in Keys(members, p) <==> Holds(members, name)
  {
    if Holds(members, name) {
      var i :| 0 <= i < |members| && members[i].name == name;
      assert Keys(members, p)[i] == name;
    }
  }

  lemma LaidNames(base: seq<TypeMember>, overlay: seq<TypeMember>, p: Policy<TypeMember>)
    requires p == TYPE_MEMBERS || p == UNION_MEMBERS
    ensures NamesOf(Lay(base, overlay, p)) == NamesOf(base) + NamesOf(overlay)
  {
    LayKeys(base, overlay, p);
    forall name ensures name in NamesOf(Lay(base, overlay, p)) <==> name in NamesOf(base) || name in NamesOf(overlay) {
      NamesOfIff(Lay(base, overlay, p), name);
      NamesOfIff(base, name);
      NamesOfIff(overlay, name);
      KeysHold(Lay(base, overlay, p), p, name);
      KeysHold(base, p, name);
      KeysHold(overlay, p, name);
      NewKeysMember(Keys(base, p), Keys(overlay, p), p.skipEmpty, name);
    }
  }

  lemma MergedNames(base: seq<TypeMember>, overlay: seq<TypeMember>)
    ensures NamesOf(MergeMembers(base, overlay)) == NamesOf(base) + NamesOf(overlay)
  {
    SortedNames(Lay(base, overlay, TYPE_MEMBERS));
    LaidNames(base, overlay, TYPE_MEMBERS);
  }

  lemma NamesAppend(members: seq<TypeMember>, x: TypeMember)
    ensures NamesOf(members + [x]) == NamesOf(members) + if x.name == "" then {} else {x.name}
  {
  }

  lemma {:induction false} DistinctNames(members: seq<TypeMember>)
    ensures NamesOf(Distinct(members)) == NamesOf(members)
  {
    if members != [] {
      var init, x := members[..|members| - 1], members[|members| - 1];
      assert members == init + [x];
      DistinctNames(init);
      NamesAppend(init, x);
      NamesAppend(Distinct(init), x);
      NamesOfIff(Distinct(init), x.name);
    }
  }

  function ShapeNames(shapes: seq<Shape>): set<string> {
    if shapes == [] then {} else ShapeNames(shapes[..|shapes| - 1]) + NamesOf(shapes[|shapes| - 1].members)
  }

  lemma {:induction false} CollectedNames(shapes: seq<Shape>)
    ensures NamesOf(Collect(shapes)) == ShapeNames(shapes)
  {
    if shapes != [] {
      CollectedNames(shapes[..|shapes| - 1]);
      DistinctNames(shapes[|shapes| - 1].members);
      LaidNames(Collect(shapes[..|shapes| - 1]), Distinct(shapes[|shapes| - 1].members), UNION_MEMBERS);
    }
  }

  lemma MarkedNames(members: seq<TypeMember>, shapes: seq<Shape>)
    ensures NamesOf(MarkMissing(members, shapes)) == NamesOf(members)
  {
    var marked := MarkMissing(members, shapes);
    forall name ensures name in NamesOf(marked) <==> name in NamesOf(members) {
      NamesOfIff(marked, name);
      NamesOfIff(members, name);
      if Holds(members, name) {
        var i :| 0 <= i < |members| && members[i].name == name;
        assert marked[i].name == name;
      }
    }
  }

  lemma UnionNames(shapes: seq<Shape>)
    ensures NamesOf(UnionMembers(shapes)) == ShapeNames(shapes)
  {
    SortedNames(MarkMissing(Collect(shapes), shapes));
    MarkedNames(Collect(shapes), shapes);
    CollectedNames(shapes);
  }

  // ---- What resolving a type asks for.

  /** One call of resolveDeclaration or resolveAdminEntityType. */
  datatype Call =
    | DeclarationCall(context: string, name: string, arguments: seq<TypeTree>, sub: Substitution)
    | EntityCall(entity: string)

  /** The entries of the `seen` map. */
  datatype Key = DeclarationKey(context: string, name: string, arguments: seq<TypeTree>) | EntityKey(entity: string)

  function KeyOf(call: Call): Key {
    match call
    case DeclarationCall(context, name, arguments, _) => DeclarationKey(context, name, arguments)
    case EntityCall(entity) => EntityKey(entity)
  }

  function KeysOf(universe: set<Call>): set<Key> {
    set call | call in universe :: KeyOf(call)
  }

  /** declarationSubstitutions, for arguments that are already substituted. */
  function ChildSubstitution(parameters: seq<string>, arguments: seq<TypeTree>, sub: Substitution): Substitution {
    if parameters == [] then sub
    else
      var init, n := parameters[..|parameters| - 1], |parameters| - 1;
      var earlier := ChildSubstitution(init, arguments, sub);
      if n < |arguments| then earlier[parameters[n] := Substitute(arguments[n], sub)] else earlier
  }

  /** Every call that resolving the substituted type makes directly is in the universe. */
  predicate Within(universe: set<Call>, context: string, v: TypeTree, sub: Substitution)
    decreases v, 0
  {
    match v
    case Union(bs) => AllWithin(universe, context, bs, sub)
    case Intersection(bs) => AllWithin(universe, context, bs, sub)
    case Wrapper(_, inner) => Within(universe, context, inner, sub)
    case Selection(_, source, _) => Within(universe, context, source, sub)
    case Named(name, arguments) => DeclarationCall(context, name, arguments, sub) in universe
    case Entity(entity) => EntityCall(entity) in universe
    case _ => true
  }

  predicate AllWithin(universe: set<Call>, context: string, vs: seq<TypeTree>, sub: Substitution)
    decreases vs, 1
  {
    vs != [] ==> Within(universe, context, vs[0], sub) && AllWithin(universe, context, vs[1..], sub)
  }

  predicate ChildWithin(universe: set<Call>, context: string, t: TypeTree, sub: Substitution) {
    Stable(sub) && Within(universe, context, Substitute(t, sub), sub)
  }

  /** The types a declaration sends on to the resolver. */
  function Children(d: Declaration): seq<TypeTree> {
    d.parents + match d.alias case None => [] case Some(a) => [a]
  }

  predicate DeclarationClosed(env: TypeEnvironment, universe: set<Call>, call: Call)
    requires call.DeclarationCall?
  {
    (call.context, call.name) in env.declarations ==>
      var found := env.declarations[(call.context, call.name)];
      var sub := ChildSubstitution(found.declaration.parameters, call.arguments, call.sub);
      Stable(sub) && forall t :: t in Children(found.declaration) ==> ChildWithin(universe, found.context, t, sub)
  }

  predicate EntityClosed(env: TypeEnvironment, universe: set<Call>, entity: string) {
    entity in env.entities ==>
      forall found, t :: found in env.entities[entity] && t in found.declaration.parents ==>
        ChildWithin(universe, found.context, t, map[])
  }

  /** A finite set of calls that resolving never leaves, with stable substitutions throughout. */
  ghost predicate Closed(env: TypeEnvironment, universe: set<Call>) {
    forall call :: call in universe ==>
      if call.DeclarationCall? then Stable(call.sub) && DeclarationClosed(env, universe, call)
      else EntityClosed(env, universe, call.entity)
  }

  // ---- The resolver.

  /** The string literals of a key type, and whether it holds nothing else. */
  function KeyNames(t: TypeTree): (set<string>, bool) {
    match t
    case Literal(text) => ({text}, true)
    case Union(bs) =>
      var (names, complete) := KeyNamesAll(bs);
      (names, complete && names != {})
    case _ => ({}, false)
  }

  function KeyNamesAll(ts: seq<TypeTree>): (set<string>, bool) {
    if ts == [] then ({}, true)
    else
      var (names, complete) := KeyNamesAll(ts[1..]);
      if ts[0].Nullish? then (names, complete)
      else if ts[0].Literal? then (names + {ts[0].text}, complete)
      else (names, false)
  }

  /** A text is a key if it is the literal, or one of the union's. */
  predicate IsKey(keys: TypeTree, text: string) {
    keys == TypeTree.Literal(text) || (keys.Union? && TypeTree.Literal(text) in keys.branches)
  }

  /** The keys are known if there is one and nothing but literals and nullish branches beside it. */
  predicate KeysKnown(keys: TypeTree) {
    || keys.Literal?
    || (keys.Union? && (exists b :: b in keys.branches && b.Literal?)
        && forall b :: b in keys.branches ==> b.Literal? || b.Nullish?)
  }

  lemma {:induction false} KeyNamesAllAre(ts: seq<TypeTree>)
    ensures forall text :: text in KeyNamesAll(ts).0 <==> TypeTree.Literal(text) in ts
    ensures KeyNamesAll(ts).1 <==> forall b :: b in ts ==> b.Literal? || b.Nullish?
  {
    if ts != [] {
      KeyNamesAllAre(ts[1..]);
      assert forall b :: b in ts <==> b == ts[0] || b in ts[1..];
      assert ts[0] in ts;
    }
  }

  lemma KeyNamesAre(keys: TypeTree)
    ensures forall text :: text in KeyNames(keys).0 <==> IsKey(keys, text)
    ensures KeyNames(keys).1 <==> KeysKnown(keys)
  {
    if keys.Union? {
      KeyNamesAllAre(keys.branches);
      if b :| b in keys.branches && b.Literal? {
        assert TypeTree.Literal(b.text) in keys.branches;
      }
      if KeyNamesAll(keys.branches).0 != {} {
        var text :| text in KeyNamesAll(keys.branches).0;
        assert TypeTree.Literal(text) in keys.branches;
      }
    }
  }

  function Select(pick: bool, shape: Shape, keys: TypeTree): Shape {
    var (names, complete) := KeyNames(keys);
    if pick && !complete then Shape([], false)
    else Shape(Picked(pick, shape.members, names), shape.complete && complete)
  }

  function Picked(pick: bool, members: seq<TypeMember>, names: set<string>): seq<TypeMember> {
    if members == [] then []
    else
      Picked(pick, members[..|members| - 1], names)
      + if (members[|members| - 1].name in names) == pick then [members[|members| - 1]] else []
  }

  function Wrap(kind: WrapperKind, shape: Shape): Shape {
    if kind.Partial? || kind.Required?
    then Shape(seq(|shape.members|, i requires 0 <= i < |shape.members| => shape.members[i].(optional := kind.Partial?)), shape.complete)
    else shape
  }

  predicate AllComplete(shapes: seq<Shape>) {
    forall i :: 0 <= i < |shapes| ==> shapes[i].complete
  }

  function UnionShape(shapes: seq<Shape>): Shape {
    if shapes == [] then Shape([], true)
    else if |shapes| == 1 then shapes[0]
    else Shape(UnionMembers(shapes), AllComplete(shapes))
  }

  const RUNTIME_MEMBERS := [
    TypeMember("_draft", false), TypeMember("_entityName", false), TypeMember("_isDirty", false), TypeMember("_isNew", false),
    TypeMember("_origin", false), TypeMember("__identifier__", false), TypeMember("getDraft", false),
    TypeMember("getEntityName", false), TypeMember("getIsDirty", false), TypeMember("getOrigin", false),
    TypeMember("isNew", false), TypeMember("markAsNew", false)]

  /** What the recursion may rely on: a closed universe and a type it covers. */
  ghost predicate Ready(env: TypeEnvironment, universe: set<Call>, context: string, t: TypeTree, sub: Substitution) {
    Closed(env, universe) && ChildWithin(universe, context, t, sub)
  }

  /** The same for a type that is already substituted. */
  ghost predicate ReadyValue(env: TypeEnvironment, universe: set<Call>, context: string, v: TypeTree, sub: Substitution) {
    Closed(env, universe) && Stable(sub) && Free(v) !! sub.Keys && Within(universe, context, v, sub)
  }

  ghost predicate ReadyAll(env: TypeEnvironment, universe: set<Call>, context: string, vs: seq<TypeTree>, sub: Substitution) {
    Closed(env, universe) && Stable(sub) && FreeAll(vs) !! sub.Keys && AllWithin(universe, context, vs, sub)
  }

  lemma ValueIsReady(env: TypeEnvironment, universe: set<Call>, context: string, t: TypeTree, sub: Substitution)
    requires Ready(env, universe, context, t, sub)
    ensures ReadyValue(env, universe, context, Substitute(t, sub), sub)
  {
    SubstituteClears(t, sub);
  }

  lemma AgainReady(env: TypeEnvironment, universe: set<Call>, context: string, v: TypeTree, sub: Substitution)
    requires ReadyValue(env, universe, context, v, sub)
    ensures Ready(env, universe, context, v, sub) && Substitute(v, sub) == v
  {
    SubstituteNothing(v, sub);
  }

  lemma GuardShrinks(universe: set<Call>, seen: set<Key>, call: Call)
    requires call in universe && KeyOf(call) !in seen
    ensures |KeysOf(universe) - (seen + {KeyOf(call)})| < |KeysOf(universe) - seen|
  {
    assert KeyOf(call) in KeysOf(universe);
    assert KeysOf(universe) - seen == (KeysOf(universe) - (seen + {KeyOf(call)})) + {KeyOf(call)};
  }

  lemma ChildIsReady(env: TypeEnvironment, universe: set<Call>, call: Call, t: TypeTree)
    requires Closed(env, universe) && call in universe && call.DeclarationCall?
    requires (call.context, call.name) in env.declarations
    requires t in Children(env.declarations[(call.context, call.name)].declaration)
    ensures var found := env.declarations[(call.context, call.name)];
            Ready(env, universe, found.context, t, ChildSubstitution(found.declaration.parameters, call.arguments, call.sub))
  {
    assert DeclarationClosed(env, universe, call);
  }

  ghost function Resolve(env: TypeEnvironment, universe: set<Call>, context: string, t: TypeTree, sub: Substitution,
                         seen: set<Key>): Shape
    requires Ready(env, universe, context, t, sub)
    decreases |KeysOf(universe) - seen|, 0, Size(Substitute(t, sub)), 1
  {
    ValueIsReady(env, universe, context, t, sub);
    ResolveValue(env, universe, context, Substitute(t, sub), sub, seen)
  }

  ghost function ResolveValue(env: TypeEnvironment, universe: set<Call>, context: string, v: TypeTree, sub: Substitution,
                              seen: set<Key>): Shape
    requires ReadyValue(env, universe, context, v, sub)
    decreases |KeysOf(universe) - seen|, 0, Size(v), 0
  {
    match v
    case Nullish => Shape([], false)
    case Unnamed => Shape([], false)
    case Literal(_) => Shape([], false)
    case Wrapper(kind, inner) =>
      AgainReady(env, universe, context, inner, sub);
      Wrap(kind, Resolve(env, universe, context, inner, sub, seen))
    case Union(bs) => UnionShape(ResolveBranches(env, universe, context, bs, sub, seen))
    case Intersection(bs) => ResolveIntersection(env, universe, context, bs, sub, seen, Shape([], true))
    case ObjectType(members, indexed) => Shape(members, !indexed)
    case Builtin(members, complete) => Shape(members, complete)
    case Selection(pick, source, keys) =>
      AgainReady(env, universe, context, source, sub);
      Select(pick, Resolve(env, universe, context, source, sub, seen), Substitute(keys, sub))
    case Entity(entity) => ResolveEntity(env, universe, entity, seen)
    case Named(name, arguments) => ResolveDeclaration(env, universe, context, name, arguments, sub, seen)
  }

  /** The shapes of the branches of a union that are not null, undefined or never. */
  ghost function ResolveBranches(env: TypeEnvironment, universe: set<Call>, context: string, bs: seq<TypeTree>,
                                 sub: Substitution, seen: set<Key>): seq<Shape>
    requires ReadyAll(env, universe, context, bs, sub)
    decreases |KeysOf(universe) - seen|, 0, SizeAll(bs), 2
  {
    if bs == [] then []
    else
      AgainReady(env, universe, context, bs[0], sub);
      (if bs[0].Nullish? then [] else [Resolve(env, universe, context, bs[0], sub, seen)])
      + ResolveBranches(env, universe, context, bs[1..], sub, seen)
  }

  function Meet(result: Shape, shape: Shape): Shape {
    Shape(MergeMembers(result.members, shape.members), result.complete && shape.complete)
  }

  ghost function ResolveIntersection(env: TypeEnvironment, universe: set<Call>, context: string, bs: seq<TypeTree>,
                                     sub: Substitution, seen: set<Key>, result: Shape): Shape
    requires ReadyAll(env, universe, context, bs, sub)
    decreases |KeysOf(universe) - seen|, 0, SizeAll(bs), 2
  {
    if bs == [] then result
    else
      AgainReady(env, universe, context, bs[0], sub);
      ResolveIntersection(env, universe, context, bs[1..], sub, seen,
                          Meet(result, Resolve(env, universe, context, bs[0], sub, seen)))
  }

  ghost function ResolveDeclaration(env: TypeEnvironment, universe: set<Call>, context: string, name: string,
                                    arguments: seq<TypeTree>, sub: Substitution, seen: set<Key>): Shape
    requires Closed(env, universe) && DeclarationCall(context, name, arguments, sub) in universe
    decreases |KeysOf(universe) - seen|, 0, 0, 0
  {
    var call := DeclarationCall(context, name, arguments, sub);
    if KeyOf(call) in seen then Shape([], false)
    else if (context, name) !in env.declarations then Shape([], false)
    else
      var found := env.declarations[(context, name)];
      var d := found.declaration;
      var child := ChildSubstitution(d.parameters, arguments, sub);
      GuardShrinks(universe, seen, call);
      ChildrenReady(env, universe, call);
      var own := ResolveParents(env, universe, found.context, d.parents, child, seen + {KeyOf(call)},
                                Shape(d.members, d.isInterface && !d.isOpen));
      match d.alias
      case None => own
      case Some(alias) =>
        ChildIsReady(env, universe, call, alias);
        var shape := Resolve(env, universe, found.context, alias, child, seen + {KeyOf(call)});
        Shape(MergeMembers(shape.members, own.members), shape.complete)
  }

  ghost predicate ParentsReady(env: TypeEnvironment, universe: set<Call>, context: string, parents: seq<TypeTree>, sub: Substitution) {
    forall t :: t in parents ==> Ready(env, universe, context, t, sub)
  }

  lemma ChildrenReady(env: TypeEnvironment, universe: set<Call>, call: Call)
    requires Closed(env, universe) && call in universe && call.DeclarationCall?
    requires (call.context, call.name) in env.declarations
    ensures var found := env.declarations[(call.context, call.name)];
            ParentsReady(env, universe, found.context, found.declaration.parents,
                         ChildSubstitution(found.declaration.parameters, call.arguments, call.sub))
  {
    var found := env.declarations[(call.context, call.name)];
    forall t | t in found.declaration.parents
      ensures Ready(env, universe, found.context, t, ChildSubstitution(found.declaration.parameters, call.arguments, call.sub))
    {
      assert t in Children(found.declaration);
      ChildIsReady(env, universe, call, t);
    }
  }

  /** What a declaration inherits stays behind its own members. */
  function Inherit(result: Shape, shape: Shape): Shape {
    Shape(MergeMembers(shape.members, result.members), result.complete && shape.complete)
  }

  ghost function ResolveParents(env: TypeEnvironment, universe: set<Call>, context: string, parents: seq<TypeTree>,
                                sub: Substitution, seen: set<Key>, result: Shape): Shape
    requires ParentsReady(env, universe, context, parents, sub)
    decreases |KeysOf(universe) - seen|, 1, |parents|, 0
  {
    if parents == [] then result
    else
      ResolveParents(env, universe, context, parents[1..], sub, seen,
                     Inherit(result, Resolve(env, universe, context, parents[0], sub, seen)))
  }

  ghost function ResolveEntity(env: TypeEnvironment, universe: set<Call>, entity: string, seen: set<Key>): Shape
    requires Closed(env, universe) && EntityCall(entity) in universe
    decreases |KeysOf(universe) - seen|, 0, 0, 0
  {
    var call := EntityCall(entity);
    if entity == "" || KeyOf(call) in seen || entity !in env.entities || env.entities[entity] == [] then Shape([], false)
    else
      GuardShrinks(universe, seen, call);
      FilesReady(env, universe, entity);
      var merged := ResolveFiles(env, universe, env.entities[entity], seen + {KeyOf(call)}, Shape([], true));
      Shape(MergeMembers(merged.members, RUNTIME_MEMBERS), merged.complete)
  }

  ghost predicate AllFilesReady(env: TypeEnvironment, universe: set<Call>, files: seq<Located>) {
    forall found :: found in files ==> ParentsReady(env, universe, found.context, found.declaration.parents, map[])
  }

  lemma FilesReady(env: TypeEnvironment, universe: set<Call>, entity: string)
    requires Closed(env, universe) && EntityCall(entity) in universe && entity in env.entities
    ensures AllFilesReady(env, universe, env.entities[entity])
  {
    assert EntityClosed(env, universe, EntityCall(entity).entity);
  }

  /** The interfaces of one entity, merged over all files. */
  ghost function ResolveFiles(env: TypeEnvironment, universe: set<Call>, files: seq<Located>, seen: set<Key>, result: Shape): Shape
    requires AllFilesReady(env, universe, files)
    decreases |KeysOf(universe) - seen|, 2, |files|, 0
  {
    if files == [] then result
    else
      assert files[0] in files;
      var own := Shape(MergeMembers(result.members, files[0].declaration.members), result.complete);
      ResolveFiles(env, universe, files[1..], seen,
                   ResolveParents(env, universe, files[0].context, files[0].declaration.parents, map[], seen, own))
  }
}
