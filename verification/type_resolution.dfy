/** The resolver with its shared `seen` map, updated in place and restored on every return
    (internal/admin/type_resolver.go:16-285), and why it needs finite, stable substitutions. */
module TypeResolution {
  import opened Overlay
  import opened StableSort
  import opened TypeResolver

  class VueTypeResolver {
    const env: TypeEnvironment
    ghost const universe: set<Call>
    var seen: set<Key>

    constructor (env: TypeEnvironment, ghost universe: set<Call>)
      ensures this.env == env && this.universe == universe && seen == {}
    {
      this.env, this.universe, seen := env, universe, {};
    }

    /** resolve: terminates by the keys not in `seen`, then by size, and hands `seen` back as it was. */
    method ResolveType(context: string, t: TypeTree, sub: Substitution) returns (shape: Shape)
      requires Ready(env, universe, context, t, sub)
      modifies this
      ensures shape == Resolve(env, universe, context, t, sub, old(seen)) && seen == old(seen)
      decreases |KeysOf(universe) - seen|, 0, Size(Substitute(t, sub)), 1
    {
      ValueIsReady(env, universe, context, t, sub);
      shape := ResolveSubstituted(context, Substitute(t, sub), sub);
    }

    method ResolveSubstituted(context: string, v: TypeTree, sub: Substitution) returns (shape: Shape)
      requires ReadyValue(env, universe, context, v, sub)
      modifies this
      ensures shape == ResolveValue(env, universe, context, v, sub, old(seen)) && seen == old(seen)
      decreases |KeysOf(universe) - seen|, 0, Size(v), 0
    {
      match v
      case Nullish => shape := Shape([], false);
      case Unnamed => shape := Shape([], false);
      case Literal(_) => shape := Shape([], false);
      case Wrapper(kind, inner) =>
        AgainReady(env, universe, context, inner, sub);
        shape := ResolveType(context, inner, sub);
        shape := Wrap(kind, shape);
      case Union(bs) => shape := ResolveUnion(context, bs, sub);
      case Intersection(bs) => shape := ResolveIntersectionOf(context, bs, sub);
      case ObjectType(members, indexed) => shape := Shape(members, !indexed);
      case Builtin(members, complete) => shape := Shape(members, complete);
      case Selection(pick, source, keys) =>
        AgainReady(env, universe, context, source, sub);
        shape := ResolveType(context, source, sub);
        shape := Select(pick, shape, Substitute(keys, sub));
      case Entity(entity) => shape := ResolveEntityType(entity);
      case Named(name, arguments) => shape := ResolveDeclared(context, name, arguments, sub);
    }

    method ResolveUnion(context: string, bs: seq<TypeTree>, sub: Substitution) returns (shape: Shape)
      requires ReadyAll(env, universe, context, bs, sub)
      modifies this
      ensures shape == UnionShape(ResolveBranches(env, universe, context, bs, sub, old(seen))) && seen == old(seen)
      decreases |KeysOf(universe) - seen|, 0, SizeAll(bs), 2
    {
      var shapes: seq<Shape> := [];
      ghost var goal := ResolveBranches(env, universe, context, bs, sub, seen);
      assert bs[0..] == bs && shapes + goal == goal;
      for i := 0 to |bs|
        invariant seen == old(seen) && ReadyAll(env, universe, context, bs[i..], sub) && SizeAll(bs[i..]) <= SizeAll(bs)
        invariant goal == shapes + ResolveBranches(env, universe, context, bs[i..], sub, old(seen))
      {
        var branch := bs[i];
        assert bs[i..][0] == branch && bs[i..][1..] == bs[i + 1..];
        BranchReady(env, universe, context, bs[i..], sub);
        ghost var rest := ResolveBranches(env, universe, context, bs[i + 1..], sub, seen);
        if branch.Nullish? {
          assert [] + rest == rest;
          continue;
        }
        var resolved := ResolveType(context, branch, sub);
        assert shapes + ([resolved] + rest) == shapes + [resolved] + rest;
        shapes := shapes + [resolved];
      }
      assert shapes + [] == shapes;
      if |shapes| == 0 {
        return Shape([], true);
      }
      if |shapes| == 1 {
        return shapes[0];
      }
      var members := UnionVueTypeMembers(shapes);
      shape := Shape(members, AllComplete(shapes));
    }

    method ResolveIntersectionOf(context: string, bs: seq<TypeTree>, sub: Substitution) returns (shape: Shape)
      requires ReadyAll(env, universe, context, bs, sub)
      modifies this
      ensures shape == ResolveIntersection(env, universe, context, bs, sub, old(seen), Shape([], true)) && seen == old(seen)
      decreases |KeysOf(universe) - seen|, 0, SizeAll(bs), 2
    {
      shape := Shape([], true);
      ghost var goal := ResolveIntersection(env, universe, context, bs, sub, seen, shape);
      assert bs[0..] == bs;
      for i := 0 to |bs|
        invariant seen == old(seen) && ReadyAll(env, universe, context, bs[i..], sub) && SizeAll(bs[i..]) <= SizeAll(bs)
        invariant goal == ResolveIntersection(env, universe, context, bs[i..], sub, old(seen), shape)
      {
        assert bs[i..][0] == bs[i] && bs[i..][1..] == bs[i + 1..];
        BranchReady(env, universe, context, bs[i..], sub);
        var resolved := ResolveType(context, bs[i], sub);
        var members := MergeTwigVueMembers(shape.members, resolved.members);
        shape := Shape(members, shape.complete && resolved.complete);
      }
    }

    method ResolveDeclared(context: string, name: string, arguments: seq<TypeTree>, sub: Substitution) returns (shape: Shape)
      requires Closed(env, universe) && DeclarationCall(context, name, arguments, sub) in universe
      modifies this
      ensures shape == ResolveDeclaration(env, universe, context, name, arguments, sub, old(seen)) && seen == old(seen)
      decreases |KeysOf(universe) - seen|, 0, 0, 0
    {
      var key := DeclarationKey(context, name, arguments);
      ghost var call := DeclarationCall(context, name, arguments, sub);
      if key in seen || (context, name) !in env.declarations {
        return Shape([], false);
      }
      var found := env.declarations[(context, name)];
      var d := found.declaration;
      var child := ChildSubstitution(d.parameters, arguments, sub);
      ghost var before := seen;
      GuardShrinks(universe, seen, call);
      ChildrenReady(env, universe, call);
      seen := seen + {key};
      shape := ResolveParentsOf(found.context, d.parents, child, Shape(d.members, d.isInterface && !d.isOpen));
      if d.alias.Some? {
        ChildIsReady(env, universe, call, d.alias.value);
        var expanded := ResolveType(found.context, d.alias.value, child);
        var members := MergeTwigVueMembers(expanded.members, shape.members);
        shape := Shape(members, expanded.complete);
      }
      seen := seen - {key};
      assert before + {key} - {key} == before;
    }

    method ResolveParentsOf(context: string, parents: seq<TypeTree>, sub: Substitution, start: Shape) returns (shape: Shape)
      requires ParentsReady(env, universe, context, parents, sub)
      modifies this
      ensures shape == ResolveParents(env, universe, context, parents, sub, old(seen), start) && seen == old(seen)
      decreases |KeysOf(universe) - seen|, 1, 0, 0
    {
      shape := start;
      ghost var goal := ResolveParents(env, universe, context, parents, sub, seen, start);
      assert parents[0..] == parents;
      for i := 0 to |parents|
        invariant seen == old(seen) && ParentsReady(env, universe, context, parents[i..], sub)
        invariant goal == ResolveParents(env, universe, context, parents[i..], sub, old(seen), shape)
      {
        assert parents[i..][0] == parents[i] && parents[i..][1..] == parents[i + 1..];
        assert parents[i] in parents;
        var resolved := ResolveType(context, parents[i], sub);
        var members := MergeTwigVueMembers(resolved.members, shape.members);
        shape := Shape(members, shape.complete && resolved.complete);
      }
    }

    method ResolveEntityType(entity: string) returns (shape: Shape)
      requires Closed(env, universe) && EntityCall(entity) in universe
      modifies this
      ensures shape == ResolveEntity(env, universe, entity, old(seen)) && seen == old(seen)
      decreases |KeysOf(universe) - seen|, 0, 0, 0
    {
      var key := EntityKey(entity);
      if entity == "" || key in seen || entity !in env.entities || env.entities[entity] == [] {
        return Shape([], false);
      }
      var files := env.entities[entity];
      ghost var before := seen;
      GuardShrinks(universe, seen, EntityCall(entity));
      FilesReady(env, universe, entity);
      seen := seen + {key};
      shape := ResolveFilesOf(files);
      seen := seen - {key};
      assert before + {key} - {key} == before;
      var members := MergeTwigVueMembers(shape.members, RUNTIME_MEMBERS);
      shape := Shape(members, shape.complete);
    }

    method ResolveFilesOf(files: seq<Located>) returns (shape: Shape)
      requires AllFilesReady(env, universe, files)
      modifies this
      ensures shape == ResolveFiles(env, universe, files, old(seen), Shape([], true)) && seen == old(seen)
      decreases |KeysOf(universe) - seen|, 2, 0, 0
    {
      shape := Shape([], true);
      ghost var goal := ResolveFiles(env, universe, files, seen, shape);
      assert files[0..] == files;
      for i := 0 to |files|
        invariant seen == old(seen) && AllFilesReady(env, universe, files[i..])
        invariant goal == ResolveFiles(env, universe, files[i..], old(seen), shape)
      {
        assert files[i..][0] == files[i] && files[i..][1..] == files[i + 1..];
        assert files[i] in files;
        var members := MergeTwigVueMembers(shape.members, files[i].declaration.members);
        shape := ResolveParentsOf(files[i].context, files[i].declaration.parents, map[], Shape(members, shape.complete));
      }
    }
  }

  lemma BranchReady(env: TypeEnvironment, universe: set<Call>, context: string, bs: seq<TypeTree>, sub: Substitution)
    requires ReadyAll(env, universe, context, bs, sub) && bs != []
    ensures Ready(env, universe, context, bs[0], sub) && Substitute(bs[0], sub) == bs[0]
    ensures ReadyAll(env, universe, context, bs[1..], sub)
    ensures Size(bs[0]) <= SizeAll(bs) && SizeAll(bs[1..]) < SizeAll(bs)
  {
    AgainReady(env, universe, context, bs[0], sub);
  }

  // ---- unionVueTypeMembers.

  method DistinctOf(members: seq<TypeMember>) returns (result: seq<TypeMember>, seen: set<string>)
    ensures result == Distinct(members) && seen == NamesOf(members)
  {
    result, seen := [], {};
    for i := 0 to |members|
      invariant result == Distinct(members[..i]) && seen == NamesOf(members[..i])
    {
      assert members[..i + 1][..i] == members[..i] && members[..i + 1] == members[..i] + [members[i]];
      NamesAppend(members[..i], members[i]);
      DistinctNames(members[..i]);
      NamesOfIff(result, members[i].name);
      if members[i].name == "" || members[i].name in seen {
        continue;
      }
      seen := seen + {members[i].name};
      result := result + [members[i]];
    }
    assert members[..|members|] == members;
  }

  /** The members of a union: once each, optional if optional or absent anywhere, sorted. */
  method UnionVueTypeMembers(shapes: seq<Shape>) returns (result: seq<TypeMember>)
    ensures result == UnionMembers(shapes)
  {
    hide SortStable;
    result := [];
    var presence: map<string, nat> := map[];
    for i := 0 to |shapes|
      invariant result == Collect(shapes[..i])
      invariant forall name :: name != "" ==> Count(presence, name) == Presence(shapes[..i], name)
    {
      assert shapes[..i + 1][..i] == shapes[..i];
      var members, seen := DistinctOf(shapes[i].members);
      result := OverlayLoop(result, members, UNION_MEMBERS);
      ghost var before := presence;
      presence := map name | name in presence.Keys + seen :: if name in seen then Count(presence, name) + 1 else presence[name];
      forall name | name != "" ensures Count(presence, name) == Presence(shapes[..i + 1], name) {
        NamesOfIff(shapes[i].members, name);
      }
    }
    assert shapes[..|shapes|] == shapes;
    CollectedNonEmpty(shapes);
    ghost var collected := result;
    for i := 0 to |result|
      invariant |result| == |collected|
      invariant forall k :: 0 <= k < |collected| ==>
        result[k] == if k < i then MarkMissing(collected, shapes)[k] else collected[k]
    {
      if Count(presence, result[i].name) < |shapes| {
        result := result[i := result[i].(optional := true)];
      }
    }
    assert result == MarkMissing(collected, shapes);
    result := SortStable(result, NameLess);
  }

  function Count(presence: map<string, nat>, name: string): nat {
    if name in presence then presence[name] else 0
  }

  lemma {:induction false} CollectedNonEmpty(shapes: seq<Shape>)
    ensures forall k :: 0 <= k < |Collect(shapes)| ==> Collect(shapes)[k].name != ""
  {
    if shapes != [] {
      var init, last := Collect(shapes[..|shapes| - 1]), Distinct(shapes[|shapes| - 1].members);
      CollectedNonEmpty(shapes[..|shapes| - 1]);
      LayKeys(init, last, UNION_MEMBERS);
      forall k | 0 <= k < |Collect(shapes)| ensures Collect(shapes)[k].name != "" {
        var key := Keys(Collect(shapes), UNION_MEMBERS)[k];
        if k < |init| {
          assert key == Keys(init, UNION_MEMBERS)[k];
        } else {
          NewKeysMember(Keys(init, UNION_MEMBERS), Keys(last, UNION_MEMBERS), true, key);
          assert key in NewKeys(Keys(init, UNION_MEMBERS), Keys(last, UNION_MEMBERS), true);
        }
      }
    }
  }
}
