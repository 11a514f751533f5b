/** Which members a resolved type shows, one by one, and which of them are optional
    (internal/admin/type_resolver.go:16-233, type_index.go:1327-1369,
    indexer_twig_vue.go:1407-1446). */
module TypeMembers {
  import opened AdminModel
  import opened Overlay
  import opened StableSort
  import opened TypeResolver
  import opened OverlayFields
  import opened RegistrationOrder

  /** Every name once. */
  predicate Once(members: seq<TypeMember>) {
    forall i, j :: 0 <= i < j < |members| ==> members[i].name != members[j].name
  }

  predicate Named(members: seq<TypeMember>, name: string) {
    exists m :: m in members && m.name == name
  }

  ghost predicate ByName(members: seq<TypeMember>) {
    forall i, j :: 0 <= i < j < |members| ==> !Precedes(members[j].name, members[i].name)
  }

  lemma NamesOrder()
    ensures Orders(NameLess)
  {
    PathsOrder(StringLess);
    forall x, y, z
      ensures NameLess(x, y) ==> !NameLess(y, x)
      ensures NameLess(x, z) ==> NameLess(x, y) || NameLess(y, z)
    {
      assert StringLess(x.name, y.name) ==> !StringLess(y.name, x.name);
      assert StringLess(x.name, z.name) ==> StringLess(x.name, y.name) || StringLess(y.name, z.name);
    }
  }

  lemma SortedByName(members: seq<TypeMember>)
    ensures ByName(SortStable(members, NameLess)) && multiset(SortStable(members, NameLess)) == multiset(members)
    ensures Once(members) ==> Once(SortStable(members, NameLess))
  {
    var sorted := SortStable(members, NameLess);
    NamesOrder();
    SortSorts(members, NameLess);
    SortPermutes(members, NameLess);
    forall i, j | 0 <= i < j < |sorted| ensures !Precedes(sorted[j].name, sorted[i].name) {
      assert !NameLess(sorted[j], sorted[i]);
      StringLessIff(sorted[j].name, sorted[i].name);
    }
    if Once(members) {
      OncePermuted(members, sorted);
    }
  }

  lemma {:induction false} CountNamed(members: seq<TypeMember>, name: string)
    ensures NamedTimes(members, name) <= 1 <==> forall i, j :: 0 <= i < j < |members| && members[i].name == name ==> members[j].name != name
    ensures NamedTimes(members, name) == 0 <==> !Named(members, name)
  {
    if members != [] {
      var init, last := members[..|members| - 1], members[|members| - 1];
      CountNamed(init, name);
      assert members == init + [last];
      if last.name == name && Named(init, name) {
        var m :| m in init && m.name == name;
        var i :| 0 <= i < |init| && init[i] == m;
        assert members[i].name == name && members[|members| - 1].name == name;
      }
      if NamedTimes(members, name) <= 1 {
        forall i, j | 0 <= i < j < |members| && members[i].name == name ensures members[j].name != name {
          assert init[i] in init;
        }
      } else if NamedTimes(init, name) > 1 {
        var i, j :| 0 <= i < j < |init| && init[i].name == name && init[j].name == name;
        assert members[i].name == name && members[j].name == name;
      }
    }
  }

  function NamedTimes(members: seq<TypeMember>, name: string): nat {
    if members == [] then 0
    else NamedTimes(members[..|members| - 1], name) + if members[|members| - 1].name == name then 1 else 0
  }

  lemma {:induction false} TimesOf(members: seq<TypeMember>, name: string)
    ensures NamedTimes(members, name) == multiset(members)[TypeMember(name, true)] + multiset(members)[TypeMember(name, false)]
  {
    if members != [] {
      TimesOf(members[..|members| - 1], name);
      assert members == members[..|members| - 1] + [members[|members| - 1]];
    }
  }

  lemma OncePermuted(a: seq<TypeMember>, b: seq<TypeMember>)
    requires Once(a) && multiset(a) == multiset(b)
    ensures Once(b)
  {
    forall i, j | 0 <= i < j < |b| ensures b[i].name != b[j].name {
      var name := b[i].name;
      TimesOf(a, name);
      TimesOf(b, name);
      CountNamed(a, name);
      CountNamed(b, name);
    }
  }

  // ---- One operation at a time.

  lemma {:induction false} PickedMember(pick: bool, members: seq<TypeMember>, names: set<string>, m: TypeMember)
    ensures m in Picked(pick, members, names) <==> m in members && (m.name in names) == pick
  {
    if members != [] {
      PickedMember(pick, members[..|members| - 1], names, m);
      assert members == members[..|members| - 1] + [members[|members| - 1]];
    }
  }

  /** `Pick` shows the members named by the keys, and none if the keys are not all known; `Omit` the others. */
  lemma SelectMember(pick: bool, shape: Shape, keys: TypeTree, m: TypeMember)
    ensures m in Select(pick, shape, keys).members <==>
            m in shape.members && IsKey(keys, m.name) == pick && (pick ==> KeysKnown(keys))
    ensures Select(pick, shape, keys).complete <==> shape.complete && KeysKnown(keys)
  {
    KeyNamesAre(keys);
    PickedMember(pick, shape.members, KeyNames(keys).0, m);
  }

  /** `Partial` makes every member optional, `Required` none; other wrappers change nothing. */
  lemma WrapMember(kind: WrapperKind, shape: Shape, i: nat)
    requires i < |shape.members|
    ensures var wrapped := Wrap(kind, shape);
            && wrapped.complete == shape.complete && |wrapped.members| == |shape.members|
            && wrapped.members[i].name == shape.members[i].name
            && (wrapped.members[i].optional <==>
                  kind == Partial || (kind != Required && shape.members[i].optional))
  {
  }

  lemma OnceIsUnique(members: seq<TypeMember>)
    ensures Once(members) <==> UniqueKeys(members, TYPE_MEMBERS)
    ensures Once(members) <==> UniqueKeys(members, UNION_MEMBERS)
  {
  }

  lemma MembersStable()
    ensures KeyStable(TYPE_MEMBERS) && KeyStable(UNION_MEMBERS)
  {
  }

  /** A merge shows the overlay's members, and the base's under other names, sorted. */
  lemma MergedMember(base: seq<TypeMember>, overlay: seq<TypeMember>, m: TypeMember)
    requires Once(base) && Once(overlay)
    ensures m in MergeMembers(base, overlay) <==> m in overlay || (m in base && !Named(overlay, m.name))
    ensures Once(MergeMembers(base, overlay)) && ByName(MergeMembers(base, overlay))
  {
    hide Lay;
    var laid := Lay(base, overlay, TYPE_MEMBERS);
    OnceIsUnique(base);
    OnceIsUnique(overlay);
    MembersStable();
    LayUnique(base, overlay, TYPE_MEMBERS);
    OnceIsUnique(laid);
    LayMember(base, overlay, TYPE_MEMBERS, m);
    SortedByName(laid);
    SortKeeps(laid, NameLess, m);
    forall y | y in overlay ensures LaidOver(base, y, TYPE_MEMBERS, m) <==> m == y {
      assert (forall x :: x in base ==> x.name != y.name) || exists x :: x in base && x.name == y.name;
    }
  }

  // ---- Unions.

  /** The first member of its name. */
  predicate Leads(members: seq<TypeMember>, m: TypeMember) {
    exists i :: 0 <= i < |members| && members[i] == m && !Named(members[..i], m.name)
  }

  /** The name is there, and not optional, in every shape. */
  predicate RequiredIn(shapes: seq<Shape>, name: string) {
    forall i :: 0 <= i < |shapes| ==> Leads(shapes[i].members, TypeMember(name, false))
  }

  predicate OptionalIn(shapes: seq<Shape>, name: string) {
    exists i :: 0 <= i < |shapes| && Leads(shapes[i].members, TypeMember(name, true))
  }

  predicate ShownIn(shapes: seq<Shape>, name: string) {
    exists i :: 0 <= i < |shapes| && Named(shapes[i].members, name)
  }

  /** What has been collected of some shapes: each name once, optional if it is so in one of them. */
  ghost predicate Collected(shapes: seq<Shape>, members: seq<TypeMember>) {
    && Once(members)
    && forall m :: m in members <==>
         m.name != "" && ShownIn(shapes, m.name) && (m.optional <==> OptionalIn(shapes, m.name))
  }

  lemma LeadsAppend(members: seq<TypeMember>, x: TypeMember, m: TypeMember)
    ensures Leads(members + [x], m) <==> Leads(members, m) || (x == m && !Named(members, m.name))
  {
    var all := members + [x];
    assert all[..|members|] == members;
    forall i | 0 <= i < |members| ensures all[i] == members[i] && all[..i] == members[..i] {
    }
  }

  lemma {:induction false} DistinctMembers(members: seq<TypeMember>)
    ensures Once(Distinct(members))
    ensures forall m :: m in Distinct(members) <==> Leads(members, m) && m.name != ""
    ensures forall name :: name != "" ==> (Named(Distinct(members), name) <==> Named(members, name))
  {
    if members != [] {
      var init, x := members[..|members| - 1], members[|members| - 1];
      DistinctMembers(init);
      assert members == init + [x];
      NamedHolds(Distinct(init), x.name);
      forall m ensures m in Distinct(members) <==> Leads(members, m) && m.name != "" {
        LeadsAppend(init, x, m);
      }
      forall name ensures Named(members, name) <==> Named(init, name) || x.name == name {
        NamedAppends(init, x, name);
      }
      forall name | name != "" ensures Named(Distinct(members), name) <==> Named(members, name) {
        NamedAppends(Distinct(init), x, name);
      }
    }
  }

  lemma NamedAppends(members: seq<TypeMember>, x: TypeMember, name: string)
    ensures Named(members + [x], name) <==> Named(members, name) || x.name == name
  {
    assert x in members + [x];
    assert forall m :: m in members ==> m in members + [x];
  }

  lemma NamedHolds(members: seq<TypeMember>, name: string)
    ensures Named(members, name) <==> Holds(members, name)
  {
    if m :| m in members && m.name == name {
      var i :| 0 <= i < |members| && members[i] == m;
      assert members[i].name == name;
    }
    if i :| 0 <= i < |members| && members[i].name == name {
      assert members[i] in members;
    }
  }

  /** A name that is there has one leading member, which is optional or not. */
  lemma {:induction false} OneLeads(members: seq<TypeMember>, name: string)
    ensures Named(members, name) <==>
            Leads(members, TypeMember(name, true)) || Leads(members, TypeMember(name, false))
    ensures !(Leads(members, TypeMember(name, true)) && Leads(members, TypeMember(name, false)))
  {
    if members != [] {
      var init, x := members[..|members| - 1], members[|members| - 1];
      assert members == init + [x];
      OneLeads(init, name);
      NamedAppends(init, x, name);
      LeadsAppend(init, x, TypeMember(name, true));
      LeadsAppend(init, x, TypeMember(name, false));
    }
  }

  lemma {:induction false} CollectMembers(shapes: seq<Shape>)
    ensures Collected(shapes, Collect(shapes))
  {
    if shapes != [] {
      var init, last := shapes[..|shapes| - 1], shapes[|shapes| - 1];
      var base, overlay := Collect(init), Distinct(last.members);
      CollectMembers(init);
      DistinctMembers(last.members);
      OnceIsUnique(base);
      OnceIsUnique(overlay);
      MembersStable();
      LayUnique(base, overlay, UNION_MEMBERS);
      OnceIsUnique(Collect(shapes));
      forall m ensures m in Collect(shapes) <==>
                       m.name != "" && ShownIn(shapes, m.name) && (m.optional <==> OptionalIn(shapes, m.name))
      {
        CollectStep(shapes, base, overlay, m);
      }
    }
  }

  lemma CollectStep(shapes: seq<Shape>, base: seq<TypeMember>, overlay: seq<TypeMember>, m: TypeMember)
    requires shapes != []
    requires Collected(shapes[..|shapes| - 1], base)
    requires Once(overlay) && forall x :: x in overlay <==> Leads(shapes[|shapes| - 1].members, x) && x.name != ""
    ensures m in Lay(base, overlay, UNION_MEMBERS) <==>
            m.name != "" && ShownIn(shapes, m.name) && (m.optional <==> OptionalIn(shapes, m.name))
  {
    hide Leads, Lay, ShownIn, OptionalIn, Once;
    LaidMember(base, overlay, m);
    ShownGrows(shapes, m.name);
    OptionalGrows(shapes, m.name);
    OneLeads(shapes[|shapes| - 1].members, m.name);
    OptionalShows(shapes[..|shapes| - 1], m.name);
    NamedAre(base, m.name);
    NamedAre(overlay, m.name);
    if m.name != "" {
      var under := TypeMember(m.name, OptionalIn(shapes[..|shapes| - 1], m.name));
      assert Named(base, m.name) <==> under in base;
      assert under in base <==> ShownIn(shapes[..|shapes| - 1], m.name);
    }
  }

  lemma OptionalShows(shapes: seq<Shape>, name: string)
    ensures OptionalIn(shapes, name) ==> ShownIn(shapes, name)
  {
    hide Leads, Named;
    if i :| 0 <= i < |shapes| && Leads(shapes[i].members, TypeMember(name, true)) {
      OneLeads(shapes[i].members, name);
    }
  }

  lemma LaidMember(base: seq<TypeMember>, overlay: seq<TypeMember>, m: TypeMember)
    requires Once(base) && Once(overlay)
    requires forall x :: x in base || x in overlay ==> x.name != ""
    ensures m in Lay(base, overlay, UNION_MEMBERS) <==>
            if Named(base, m.name) && Named(overlay, m.name)
            then m.optional <==> TypeMember(m.name, true) in base || TypeMember(m.name, true) in overlay
            else m in base || m in overlay
  {
    hide Lay, Once;
    OnceIsUnique(base);
    OnceIsUnique(overlay);
    MembersStable();
    LayMember(base, overlay, UNION_MEMBERS, m);
    NotBoth(base, m.name);
    NotBoth(overlay, m.name);
  }

  lemma NotBoth(members: seq<TypeMember>, name: string)
    requires Once(members)
    ensures forall x, y :: x in members && y in members && x.name == y.name ==> x == y
  {
  }

  lemma NamedAre(members: seq<TypeMember>, name: string)
    ensures forall x :: x in members && x.name == name ==> x == TypeMember(name, true) || x == TypeMember(name, false)
  {
  }

  lemma ShownGrows(shapes: seq<Shape>, name: string)
    requires shapes != []
    ensures ShownIn(shapes, name) <==> ShownIn(shapes[..|shapes| - 1], name) || Named(shapes[|shapes| - 1].members, name)
  {
    hide Named;
    var init := shapes[..|shapes| - 1];
    assert forall i :: 0 <= i < |init| ==> init[i] == shapes[i];
  }

  lemma OptionalGrows(shapes: seq<Shape>, name: string)
    requires shapes != []
    ensures OptionalIn(shapes, name) <==>
            OptionalIn(shapes[..|shapes| - 1], name) || Leads(shapes[|shapes| - 1].members, TypeMember(name, true))
  {
    hide Leads;
    var init := shapes[..|shapes| - 1];
    assert forall i :: 0 <= i < |init| ==> init[i] == shapes[i];
  }

  lemma {:induction false} PresenceAll(shapes: seq<Shape>, name: string)
    ensures Presence(shapes, name) <= |shapes|
    ensures Presence(shapes, name) == |shapes| <==> forall i :: 0 <= i < |shapes| ==> Named(shapes[i].members, name)
  {
    hide Named;
    if shapes != [] {
      var init, last := shapes[..|shapes| - 1], shapes[|shapes| - 1];
      PresenceAll(init, name);
      assert forall i :: 0 <= i < |init| ==> init[i] == shapes[i];
      NamedHolds(last.members, name);
    }
  }

  /** A union shows each name of its branches once, sorted; the member is required exactly if
      every branch has it and requires it. */
  lemma UnionMember(shapes: seq<Shape>, m: TypeMember)
    ensures m in UnionMembers(shapes) <==>
            m.name != "" && ShownIn(shapes, m.name) && (m.optional <==> !RequiredIn(shapes, m.name))
    ensures Once(UnionMembers(shapes)) && ByName(UnionMembers(shapes))
  {
    hide Leads, ShownIn, OptionalIn, RequiredIn, Named, ByName, Collect;
    var collected := Collect(shapes);
    var marked := MarkMissing(collected, shapes);
    CollectMembers(shapes);
    SortedByName(marked);
    SortKeeps(marked, NameLess, m);
    RequiredMeans(shapes, m.name);
    PresenceAll(shapes, m.name);
    MarkedMember(collected, shapes, m);
  }

  lemma MarkedMember(members: seq<TypeMember>, shapes: seq<Shape>, m: TypeMember)
    ensures m in MarkMissing(members, shapes) <==>
            var missing := Presence(shapes, m.name) < |shapes|;
            if missing then m.optional && (m in members || m.(optional := false) in members) else m in members
  {
    var marked := MarkMissing(members, shapes);
    if m in marked {
      var i :| 0 <= i < |marked| && marked[i] == m;
      assert members[i] in members;
    }
    forall x | x in members
      ensures x.(optional := x.optional || Presence(shapes, x.name) < |shapes|) in marked
    {
      var i :| 0 <= i < |members| && members[i] == x;
      assert marked[i] in marked;
    }
    assert m.(optional := true).(optional := m.optional) == m;
  }

  lemma RequiredMeans(shapes: seq<Shape>, name: string)
    ensures RequiredIn(shapes, name) <==>
            !OptionalIn(shapes, name) && forall i :: 0 <= i < |shapes| ==> Named(shapes[i].members, name)
  {
    hide Leads, Named;
    forall i | 0 <= i < |shapes|
      ensures Leads(shapes[i].members, TypeMember(name, false)) <==>
              Named(shapes[i].members, name) && !Leads(shapes[i].members, TypeMember(name, true))
    {
      OneLeads(shapes[i].members, name);
    }
  }

  // ---- Which member of a name is shown.

  /** The last member of the name, which an overlay replaces. */
  function Shown(members: seq<TypeMember>, name: string): Option<TypeMember> {
    if members == [] then None
    else if members[|members| - 1].name == name then Some(members[|members| - 1])
    else Shown(members[..|members| - 1], name)
  }

  function OrElse(first: Option<TypeMember>, second: Option<TypeMember>): Option<TypeMember> {
    if first.Some? then first else second
  }

  lemma {:induction false} ShownIsLookup(members: seq<TypeMember>, name: string)
    ensures Lookup(members, TYPE_MEMBERS, name) == Shown(members, name)
  {
    if members != [] && members[|members| - 1].name != name {
      ShownIsLookup(members[..|members| - 1], name);
    }
  }

  lemma {:induction false} LaidShows(base: seq<TypeMember>, overlay: seq<TypeMember>, name: string)
    ensures Shown(Lay(base, overlay, TYPE_MEMBERS), name) == OrElse(Shown(overlay, name), Shown(base, name))
  {
    if overlay != [] {
      var init, last := overlay[..|overlay| - 1], overlay[|overlay| - 1];
      var laid := Lay(base, init, TYPE_MEMBERS);
      LaidShows(base, init, name);
      MembersStable();
      PutLookup(laid, TYPE_MEMBERS, last, name);
      ShownIsLookup(laid, name);
      ShownIsLookup(Put(laid, TYPE_MEMBERS, last), name);
    }
  }

  lemma {:induction false} ShownPasses(members: seq<TypeMember>, name: string)
    ensures Shown(members, name)
            == var same := Passing(members, (x: TypeMember) => x.name == name);
               if same == [] then None else Some(same[|same| - 1])
  {
    if members != [] {
      ShownPasses(members[..|members| - 1], name);
    }
  }

  lemma SortedShows(members: seq<TypeMember>, name: string)
    ensures Shown(SortStable(members, NameLess), name) == Shown(members, name)
  {
    var test := (x: TypeMember) => x.name == name;
    forall x, y: TypeMember | test(x) && test(y) ensures !NameLess(x, y) {
      StringLessTotal(x.name, x.name);
    }
    SortStays(members, NameLess, test);
    ShownPasses(members, name);
    ShownPasses(SortStable(members, NameLess), name);
  }

  /** A merge shows the overlay's member of a name, or else the base's. */
  lemma MergeShows(base: seq<TypeMember>, overlay: seq<TypeMember>, name: string)
    ensures Shown(MergeMembers(base, overlay), name) == OrElse(Shown(overlay, name), Shown(base, name))
  {
    SortedShows(Lay(base, overlay, TYPE_MEMBERS), name);
    LaidShows(base, overlay, name);
  }

  // ---- Which declaration a member of a type comes from.

  /** The first of the parents, from the given one on, that shows the name. */
  ghost function InheritedFrom(env: TypeEnvironment, universe: set<Call>, context: string, parents: seq<TypeTree>,
                               sub: Substitution, seen: set<Key>, name: string): Option<TypeMember>
    requires ParentsReady(env, universe, context, parents, sub)
    decreases |parents|
  {
    if parents == [] then None
    else
      OrElse(Shown(Resolve(env, universe, context, parents[0], sub, seen).members, name),
             InheritedFrom(env, universe, context, parents[1..], sub, seen, name))
  }

  lemma {:induction false} ParentsShow(env: TypeEnvironment, universe: set<Call>, context: string, parents: seq<TypeTree>,
                                       sub: Substitution, seen: set<Key>, result: Shape, name: string)
    requires ParentsReady(env, universe, context, parents, sub)
    ensures Shown(ResolveParents(env, universe, context, parents, sub, seen, result).members, name)
            == OrElse(Shown(result.members, name), InheritedFrom(env, universe, context, parents, sub, seen, name))
    decreases |parents|
  {
    if parents != [] {
      var shape := Resolve(env, universe, context, parents[0], sub, seen);
      MergeShows(shape.members, result.members, name);
      ParentsShow(env, universe, context, parents[1..], sub, seen, Inherit(result, shape), name);
    }
  }

  /** A declaration shows its own member of a name; else its first parent's that has one; else its
      alias's. */
  lemma DeclarationShows(env: TypeEnvironment, universe: set<Call>, context: string, name: string,
                         arguments: seq<TypeTree>, sub: Substitution, seen: set<Key>, member: string)
    requires Closed(env, universe) && DeclarationCall(context, name, arguments, sub) in universe
    requires DeclarationKey(context, name, arguments) !in seen && (context, name) in env.declarations
    ensures var found := env.declarations[(context, name)];
            var child := ChildSubstitution(found.declaration.parameters, arguments, sub);
            var inside := seen + {DeclarationKey(context, name, arguments)};
            && ParentsReady(env, universe, found.context, found.declaration.parents, child)
            && (found.declaration.alias.Some? ==> Ready(env, universe, found.context, found.declaration.alias.value, child))
            && Shown(ResolveDeclaration(env, universe, context, name, arguments, sub, seen).members, member)
               == OrElse(OrElse(Shown(found.declaration.members, member),
                                InheritedFrom(env, universe, found.context, found.declaration.parents, child, inside, member)),
                         if found.declaration.alias.None? then None
                         else Shown(Resolve(env, universe, found.context, found.declaration.alias.value, child, inside).members, member))
  {
    var call := DeclarationCall(context, name, arguments, sub);
    var found := env.declarations[(context, name)];
    var d := found.declaration;
    var child := ChildSubstitution(d.parameters, arguments, sub);
    var inside := seen + {KeyOf(call)};
    ChildrenReady(env, universe, call);
    var start := Shape(d.members, d.isInterface && !d.isOpen);
    ParentsShow(env, universe, found.context, d.parents, child, inside, start, member);
    if d.alias.Some? {
      ChildIsReady(env, universe, call, d.alias.value);
      var own := ResolveParents(env, universe, found.context, d.parents, child, inside, start);
      MergeShows(Resolve(env, universe, found.context, d.alias.value, child, inside).members, own.members, member);
    }
  }

  /** The last of the branches that shows the name. */
  ghost function LastBranch(env: TypeEnvironment, universe: set<Call>, context: string, bs: seq<TypeTree>,
                            sub: Substitution, seen: set<Key>, name: string): Option<TypeMember>
    requires ReadyAll(env, universe, context, bs, sub)
    decreases |bs|
  {
    if bs == [] then None
    else
      AgainReady(env, universe, context, bs[0], sub);
      OrElse(LastBranch(env, universe, context, bs[1..], sub, seen, name),
             Shown(Resolve(env, universe, context, bs[0], sub, seen).members, name))
  }

  /** Of an intersection the last branch that shows a name decides. */
  lemma {:induction false} IntersectionShows(env: TypeEnvironment, universe: set<Call>, context: string, bs: seq<TypeTree>,
                                             sub: Substitution, seen: set<Key>, result: Shape, name: string)
    requires ReadyAll(env, universe, context, bs, sub)
    ensures Shown(ResolveIntersection(env, universe, context, bs, sub, seen, result).members, name)
            == OrElse(LastBranch(env, universe, context, bs, sub, seen, name), Shown(result.members, name))
    decreases |bs|
  {
    if bs != [] {
      AgainReady(env, universe, context, bs[0], sub);
      var shape := Resolve(env, universe, context, bs[0], sub, seen);
      MergeShows(result.members, shape.members, name);
      IntersectionShows(env, universe, context, bs[1..], sub, seen, Meet(result, shape), name);
    }
  }

  /** The last file that declares the name. */
  function DeclaredIn(files: seq<Located>, name: string): Option<TypeMember> {
    if files == [] then None
    else OrElse(DeclaredIn(files[1..], name), Shown(files[0].declaration.members, name))
  }

  /** The first file whose parents show the name. */
  ghost function InheritedIn(env: TypeEnvironment, universe: set<Call>, files: seq<Located>, seen: set<Key>, name: string)
    : Option<TypeMember>
    requires AllFilesReady(env, universe, files)
    decreases |files|
  {
    if files == [] then None
    else
      assert files[0] in files;
      OrElse(InheritedFrom(env, universe, files[0].context, files[0].declaration.parents, map[], seen, name),
             InheritedIn(env, universe, files[1..], seen, name))
  }

  lemma {:induction false} FilesShow(env: TypeEnvironment, universe: set<Call>, files: seq<Located>, seen: set<Key>,
                                     result: Shape, name: string)
    requires AllFilesReady(env, universe, files)
    ensures Shown(ResolveFiles(env, universe, files, seen, result).members, name)
            == OrElse(DeclaredIn(files, name), OrElse(Shown(result.members, name), InheritedIn(env, universe, files, seen, name)))
    decreases |files|
  {
    if files != [] {
      assert files[0] in files;
      var d := files[0].declaration;
      var own := Shape(MergeMembers(result.members, d.members), result.complete);
      MergeShows(result.members, d.members, name);
      ParentsShow(env, universe, files[0].context, d.parents, map[], seen, own, name);
      FilesShow(env, universe, files[1..], seen,
                ResolveParents(env, universe, files[0].context, d.parents, map[], seen, own), name);
    }
  }

  /** An entity shows the members every entity has at run time; else those of the last file that
      declares the name; else those of the first file whose parents have it. */
  lemma EntityShows(env: TypeEnvironment, universe: set<Call>, entity: string, seen: set<Key>, name: string)
    requires Closed(env, universe) && EntityCall(entity) in universe && entity != "" && EntityKey(entity) !in seen
    requires entity in env.entities && env.entities[entity] != []
    ensures AllFilesReady(env, universe, env.entities[entity])
    ensures Shown(ResolveEntity(env, universe, entity, seen).members, name)
            == OrElse(Shown(RUNTIME_MEMBERS, name),
                      OrElse(DeclaredIn(env.entities[entity], name),
                             InheritedIn(env, universe, env.entities[entity], seen + {EntityKey(entity)}, name)))
  {
    var inside := seen + {EntityKey(entity)};
    FilesReady(env, universe, entity);
    var merged := ResolveFiles(env, universe, env.entities[entity], inside, Shape([], true));
    FilesShow(env, universe, env.entities[entity], inside, Shape([], true), name);
    MergeShows(merged.members, RUNTIME_MEMBERS, name);
  }
}
