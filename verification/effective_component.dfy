/** The effective component: registrations, mixins, overrides and recursively resolved
    parents folded by overlays (internal/admin/indexer_effective.go), and the memoised,
    cycle-guarded query that computes it. */
module EffectiveComponent {
  import opened AdminModel
  import opened ComponentOverlay
  import opened LiveView
  import opened MemberInference
  import opened StableSort

  // ---- Reading definitions and mixins.

  /** definitionWithLiveTemplate: an open template replaces the slots and blocks. */
  function WithTemplate(docs: Documents, d: Definition): Definition {
    if d.templatePath != "" && d.templatePath in docs.liveTwig
    then d.(slots := docs.liveTwig[d.templatePath].slots, blocks := docs.liveTwig[d.templatePath].blocks)
    else d
  }

  function DefinitionsOf(stored: seq<StoredDefinition>, key: string): seq<Definition> {
    if stored == [] then []
    else (if stored[0].key == key then [stored[0].definition] else []) + DefinitionsOf(stored[1..], key)
  }

  /** GetComponentDefinition: an open script shadows the stored definitions, even without one. */
  function DefinitionAt(docs: Documents, path: string): Option<Definition> {
    if path != "" && path in docs.liveLegacy then
      match docs.liveLegacy[path].definition
      case None => None
      case Some(d) => Some(WithTemplate(docs, d))
    else
      var found := DefinitionsOf(docs.definitions, path);
      if found == [] then None else Some(WithTemplate(docs, found[0]))
  }

  function InFile(definitions: seq<Definition>, filePath: string): Option<Definition> {
    if definitions == [] then None
    else if definitions[0].filePath == filePath then Some(definitions[0])
    else InFile(definitions[1..], filePath)
  }

  /** applyDefinition */
  function ApplyDefinition(c: Component, d: Definition): Component {
    c.(deprecated := Filled(d.deprecated, c.deprecated),
       props := d.props, modelProp := d.modelProp, modelEvent := d.modelEvent, emits := d.emits, events := d.events,
       methods := d.methods, computed := d.computed, data := d.data, injected := d.injected, mixins := d.mixins,
       localComponents := d.localComponents, localDirectives := d.localDirectives, members := d.members,
       openRuntimeMembers := d.openRuntimeMembers, assignments := d.assignments, slots := d.slots,
       blocks := d.blocks, templatePath := d.templatePath)
  }

  /** populateComponentDefinition: the inline definition, else the one at the definition path, else
      the one stored under the name in the same file, else the only one stored under the name. */
  function Populate(docs: Documents, c: Component): Component {
    if c.inlineDefinition.Some? then ApplyDefinition(c, WithTemplate(docs, c.inlineDefinition.value))
    else
      var at := if c.definitionPath == "" then None else DefinitionAt(docs, c.definitionPath);
      if at.Some? then ApplyDefinition(c, at.value)
      else
        var named := DefinitionsOf(docs.definitions, c.name);
        var own := InFile(named, c.filePath);
        if own.Some? then ApplyDefinition(c, WithTemplate(docs, own.value))
        else if |named| == 1 then ApplyDefinition(c, WithTemplate(docs, named[0]))
        else c
  }

  function PopulateAll(docs: Documents, cs: seq<Component>): (r: seq<Component>)
    ensures |r| == |cs|
  {
    seq(|cs|, i requires 0 <= i < |cs| => Populate(docs, cs[i]))
  }

  /** Overrides come after all other registrations, each group in file order. */
  predicate RegistrationLess(a: Component, b: Component) {
    if a.kind.Override? != b.kind.Override? then !a.kind.Override? else StringLess(a.filePath, b.filePath)
  }

  predicate MixinLess(a: Mixin, b: Mixin) {
    StringLess(a.filePath, b.filePath)
  }

  function MixinFile(m: Mixin): string {
    m.filePath
  }

  function MixinsOf(d: LegacyDocument): seq<Mixin> {
    d.mixins
  }

  function MixinNamed(name: string): Mixin -> bool {
    (m: Mixin) => m.name == name
  }

  /** GetMixin, in the order componentWithMixins applies them. */
  ghost function GetMixins(docs: Documents, name: string): seq<Mixin> {
    SortStable(Merged(Select(docs.mixins, MixinNamed(name)), docs.liveLegacy, MixinFile, MixinsOf, MixinNamed(name)),
               MixinLess)
  }

  // ---- Mixins.

  /** What applyMixin still has to do: enter a mixin by name, or lay a visited definition. */
  datatype MixinTask = Enter(name: string) | LayOn(definition: Definition)

  function EnterAll(names: seq<string>): (r: seq<MixinTask>)
    ensures |r| == |names|
  {
    seq(|names|, i requires 0 <= i < |names| => Enter(names[i]))
  }

  /** A mixin's own mixins are applied before its definition is laid. */
  function Visit(mixins: seq<Mixin>): seq<MixinTask> {
    if mixins == [] then []
    else EnterAll(mixins[0].definition.mixins) + ([LayOn(mixins[0].definition)] + Visit(mixins[1..]))
  }

  function MixinNames(docs: Documents): set<string> {
    (set m | m in docs.mixins :: m.name)
    + (set p, m | p in docs.liveLegacy && m in docs.liveLegacy[p].mixins :: m.name)
  }

  lemma FoundMixinIsNamed(docs: Documents, name: string)
    requires GetMixins(docs, name) != []
    ensures name in MixinNames(docs)
  {
    var x := GetMixins(docs, name)[0];
    var merged := Merged(Select(docs.mixins, MixinNamed(name)), docs.liveLegacy, MixinFile, MixinsOf, MixinNamed(name));
    SortKeeps(merged, MixinLess, x);
    MergedMember(Select(docs.mixins, MixinNamed(name)), docs.liveLegacy, MixinFile, MixinsOf, MixinNamed(name), x);
    SelectMember(docs.mixins, MixinNamed(name), x);
  }

  lemma SmallerLeft(all: set<string>, seen: set<string>, x: string)
    requires x !in seen
    ensures all - (seen + {x}) <= all - seen
    ensures x in all ==> |all - (seen + {x})| < |all - seen|
    ensures |all - (seen + {x})| <= |all - seen|
  {
    if x in all {
      assert all - seen == (all - (seen + {x})) + {x};
    } else {
      assert all - (seen + {x}) == all - seen;
    }
  }

  /** The recursive applyMixin, its call stack written out as the tasks that remain. */
  ghost function RunMixins(docs: Documents, name: string, tasks: seq<MixinTask>, seen: set<string>, result: Component): Component
    decreases |MixinNames(docs) - seen|, |tasks|
  {
    if tasks == [] then result
    else match tasks[0]
      case LayOn(d) =>
        RunMixins(docs, name, tasks[1..], seen, OverlayComponents(result, ApplyDefinition(Blank(name), d)))
      case Enter(m) =>
        if m == "" || m in seen then RunMixins(docs, name, tasks[1..], seen, result)
        else
          var mixins := GetMixins(docs, m);
          SmallerLeft(MixinNames(docs), seen, m);
          if mixins == [] then RunMixins(docs, name, tasks[1..], seen + {m}, result.(openRuntimeMembers := true))
          else
            FoundMixinIsNamed(docs, m);
            RunMixins(docs, name, Visit(mixins) + tasks[1..], seen + {m}, result)
  }

  /** componentWithMixins */
  ghost function Own(docs: Documents, c: Component): Component {
    OverlayComponents(RunMixins(docs, c.name, EnterAll(c.mixins), {}, Blank(c.name)), c)
  }

  lemma {:induction false} MixinsNeverExtend(docs: Documents, name: string, tasks: seq<MixinTask>, seen: set<string>,
                                            result: Component)
    requires result.extendsComponent == ""
    ensures RunMixins(docs, name, tasks, seen, result).extendsComponent == ""
    decreases |MixinNames(docs) - seen|, |tasks|
  {
    if tasks != [] {
      match tasks[0]
      case LayOn(d) =>
        MixinsNeverExtend(docs, name, tasks[1..], seen, OverlayComponents(result, ApplyDefinition(Blank(name), d)));
      case Enter(m) =>
        if m == "" || m in seen {
          MixinsNeverExtend(docs, name, tasks[1..], seen, result);
        } else {
          var mixins := GetMixins(docs, m);
          SmallerLeft(MixinNames(docs), seen, m);
          if mixins == [] {
            MixinsNeverExtend(docs, name, tasks[1..], seen + {m}, result.(openRuntimeMembers := true));
          } else {
            FoundMixinIsNamed(docs, m);
            MixinsNeverExtend(docs, name, Visit(mixins) + tasks[1..], seen + {m}, result);
          }
        }
    }
  }

  lemma OwnExtends(docs: Documents, c: Component)
    ensures Own(docs, c).extendsComponent == c.extendsComponent
  {
    MixinsNeverExtend(docs, c.name, EnterAll(c.mixins), {}, Blank(c.name));
  }

  // ---- Registrations and the extends graph.

  /** The populated registrations of a name in the order they are overlaid. */
  ghost function Ordered(docs: Documents, name: string): seq<Component> {
    SortStable(PopulateAll(docs, ByName(docs, name)), RegistrationLess)
  }

  /** The names a component's registrations extend. */
  ghost function Parents(docs: Documents, name: string): set<string> {
    set r | r in ByName(docs, name) && r.extendsComponent != "" :: r.extendsComponent
  }

  /** Every chain of parents from the name has at most d links. */
  ghost predicate Bounded(docs: Documents, name: string, d: nat)
    decreases d
  {
    forall p :: p in Parents(docs, name) ==> d > 0 && Bounded(docs, p, d - 1)
  }

  /** No infinite chain of parents, that is no cycle of `extends`, is reachable from the name. */
  ghost predicate Acyclic(docs: Documents, name: string) {
    exists d: nat :: Bounded(docs, name, d)
  }

  ghost predicate IsHeight(docs: Documents, name: string, d: nat) {
    Bounded(docs, name, d) && forall k: nat :: k < d ==> !Bounded(docs, name, k)
  }

  lemma {:induction false} LeastBound(docs: Documents, name: string, d: nat)
    requires Bounded(docs, name, d)
    ensures exists h: nat :: h <= d && IsHeight(docs, name, h)
  {
    if k: nat :| k < d && Bounded(docs, name, k) {
      LeastBound(docs, name, k);
    } else {
      assert IsHeight(docs, name, d);
    }
  }

  /** Length of the longest chain of parents. */
  ghost function Height(docs: Documents, name: string): (h: nat)
    requires Acyclic(docs, name)
    ensures IsHeight(docs, name, h)
  {
    var d: nat :| Bounded(docs, name, d);
    LeastBound(docs, name, d);
    var h: nat :| IsHeight(docs, name, h);
    h
  }

  lemma HeightIsLeast(docs: Documents, name: string, d: nat)
    requires Bounded(docs, name, d)
    ensures Acyclic(docs, name) && Height(docs, name) <= d
  {
  }

  lemma ParentLower(docs: Documents, name: string, p: string)
    requires Acyclic(docs, name) && p in Parents(docs, name)
    ensures Acyclic(docs, p) && Height(docs, p) < Height(docs, name)
  {
    var h := Height(docs, name);
    assert Bounded(docs, name, h);
    HeightIsLeast(docs, p, h - 1);
  }

  lemma OrderedExtends(docs: Documents, name: string, c: Component)
    requires c in Ordered(docs, name) && c.extendsComponent != ""
    ensures c.extendsComponent in Parents(docs, name)
  {
    var regs := ByName(docs, name);
    var populated := PopulateAll(docs, regs);
    SortKeeps(populated, RegistrationLess, c);
    var i :| 0 <= i < |populated| && populated[i] == c;
    assert regs[i] in regs && regs[i].extendsComponent == c.extendsComponent;
  }

  // ---- The reference: no cache, no guard.

  /** An own contribution over its resolved parent; deprecation is not inherited. */
  function WithParent(own: Component, parent: Option<Component>): Component {
    if parent.None? then own else OverlayComponents(parent.value, own).(deprecated := own.deprecated)
  }

  ghost predicate Below(docs: Documents, rest: seq<Component>, h: nat) {
    forall c :: c in rest && c.extendsComponent != "" ==>
      Acyclic(docs, c.extendsComponent) && Height(docs, c.extendsComponent) < h
  }

  ghost function MergeFrom(docs: Documents, h: nat, rest: seq<Component>, merged: Component): Component
    requires Below(docs, rest, h)
    decreases h, 0, |rest|
  {
    if rest == [] then merged
    else
      var own := Own(docs, rest[0]);
      assert rest[0] in rest;
      var parent := if rest[0].extendsComponent == "" then None else Effective(docs, rest[0].extendsComponent);
      MergeFrom(docs, h, rest[1..], OverlayComponents(merged, WithParent(own, parent)))
  }

  ghost function HeightOrZero(docs: Documents, name: string): nat {
    if Acyclic(docs, name) then Height(docs, name) else 0
  }

  lemma OrderedBelow(docs: Documents, name: string)
    requires Acyclic(docs, name)
    ensures Below(docs, Ordered(docs, name), Height(docs, name))
  {
    forall c | c in Ordered(docs, name) && c.extendsComponent != ""
      ensures Acyclic(docs, c.extendsComponent) && Height(docs, c.extendsComponent) < Height(docs, name)
    {
      OrderedExtends(docs, name, c);
      ParentLower(docs, name, c.extendsComponent);
    }
  }

  /** The effective component, by plain recursion over parents. */
  ghost function Effective(docs: Documents, name: string): Option<Component>
    decreases HeightOrZero(docs, name), 1, 0
  {
    if name == "" || !Acyclic(docs, name) || Ordered(docs, name) == [] then None
    else
      OrderedBelow(docs, name);
      Some(Enrich(docs.Types(), MergeFrom(docs, Height(docs, name), Ordered(docs, name), Blank(name))))
  }

  // ---- The memoised, guarded query.

  ghost function Names(docs: Documents): set<string> {
    (set c | c in docs.components :: c.name)
    + (set p, c | p in docs.liveLegacy && c in docs.liveLegacy[p].registrations :: c.name)
  }

  lemma RegisteredIsNamed(docs: Documents, name: string)
    requires name != "" && Ordered(docs, name) != []
    ensures name in Names(docs)
  {
    var populated := PopulateAll(docs, ByName(docs, name));
    SortKeeps(populated, RegistrationLess, Ordered(docs, name)[0]);
    var c := ByName(docs, name)[0];
    MergedMember(Select(docs.components, Named(name)), docs.liveLegacy, FileOf, Registrations, NamedOrAll(name), c);
    SelectMember(docs.components, Named(name), c);
  }

  /** One effectiveComponent call between invalidations: the value and the cache after it. */
  ghost function Query(docs: Documents, cache: map<string, Component>, name: string, resolving: set<string>)
    : (Option<Component>, map<string, Component>)
    decreases |Names(docs) - resolving|, 0, 0
  {
    if name == "" || name in resolving then (None, cache)
    else if name in cache then (Some(cache[name]), cache)
    else if Ordered(docs, name) == [] then (None, cache)
    else
      RegisteredIsNamed(docs, name);
      SmallerLeft(Names(docs), resolving, name);
      var (merged, filled) := QueryParents(docs, cache, resolving + {name}, Ordered(docs, name), Blank(name));
      var result := Enrich(docs.Types(), merged);
      (Some(result), filled[name := result])
  }

  ghost function QueryParents(docs: Documents, cache: map<string, Component>, resolving: set<string>,
                              rest: seq<Component>, merged: Component): (Component, map<string, Component>)
    decreases |Names(docs) - resolving|, 1, |rest|
  {
    if rest == [] then (merged, cache)
    else
      var own := Own(docs, rest[0]);
      var (parent, filled) := if own.extendsComponent == "" then (None, cache)
                              else Query(docs, cache, own.extendsComponent, resolving);
      QueryParents(docs, filled, resolving, rest[1..], OverlayComponents(merged, WithParent(own, parent)))
  }

  /** Cached values of names without a reachable cycle are the reference values. */
  ghost predicate Consistent(docs: Documents, cache: map<string, Component>) {
    forall n :: n in cache && Acyclic(docs, n) ==> Effective(docs, n) == Some(cache[n])
  }

  /** The names being resolved all lie above this one. */
  ghost predicate Above(docs: Documents, name: string, resolving: set<string>) {
    forall r :: r in resolving && Acyclic(docs, r) ==> Acyclic(docs, name) && Height(docs, name) < Height(docs, r)
  }

  lemma AboveParent(docs: Documents, name: string, resolving: set<string>, p: string)
    requires Above(docs, name, resolving) && p in Parents(docs, name)
    ensures Above(docs, p, resolving + {name})
  {
    if Acyclic(docs, name) {
      ParentLower(docs, name, p);
    }
  }

  /** Memo equals recursion: from a consistent cache, a query of a name without a reachable
      cycle returns the cache-free, guard-free value, and leaves the cache consistent. */
  lemma {:induction false} QueryIsEffective(docs: Documents, cache: map<string, Component>, name: string,
                                           resolving: set<string>)
    requires Consistent(docs, cache) && Above(docs, name, resolving)
    ensures Acyclic(docs, name) ==> Query(docs, cache, name, resolving).0 == Effective(docs, name)
    ensures Consistent(docs, Query(docs, cache, name, resolving).1)
    decreases |Names(docs) - resolving|, 0, 0
  {
    if name != "" && name !in resolving && name !in cache && Ordered(docs, name) != [] {
      RegisteredIsNamed(docs, name);
      SmallerLeft(Names(docs), resolving, name);
      var inner := resolving + {name};
      OrderedAbove(docs, name, resolving);
      if Acyclic(docs, name) {
        OrderedBelow(docs, name);
      }
      QueryParentsIsMerge(docs, cache, name, inner, Ordered(docs, name), Blank(name));
      var (merged, filled) := QueryParents(docs, cache, inner, Ordered(docs, name), Blank(name));
      ConsistentPut(docs, filled, name, Enrich(docs.Types(), merged));
    }
  }

  lemma ConsistentPut(docs: Documents, cache: map<string, Component>, name: string, value: Component)
    requires Consistent(docs, cache) && (Acyclic(docs, name) ==> Effective(docs, name) == Some(value))
    ensures Consistent(docs, cache[name := value])
  {
  }

  lemma OrderedAbove(docs: Documents, name: string, resolving: set<string>)
    requires Above(docs, name, resolving)
    ensures forall c :: c in Ordered(docs, name) && c.extendsComponent != "" ==>
              Above(docs, c.extendsComponent, resolving + {name})
  {
    forall c | c in Ordered(docs, name) && c.extendsComponent != ""
      ensures Above(docs, c.extendsComponent, resolving + {name})
    {
      OrderedExtends(docs, name, c);
      AboveParent(docs, name, resolving, c.extendsComponent);
    }
  }

  lemma {:induction false} QueryParentsIsMerge(docs: Documents, cache: map<string, Component>, name: string,
                                              resolving: set<string>, rest: seq<Component>, merged: Component)
    requires Consistent(docs, cache)
    requires Acyclic(docs, name) ==> Below(docs, rest, Height(docs, name))
    requires forall c :: c in rest && c.extendsComponent != "" ==> Above(docs, c.extendsComponent, resolving)
    ensures Acyclic(docs, name) ==>
              QueryParents(docs, cache, resolving, rest, merged).0 == MergeFrom(docs, Height(docs, name), rest, merged)
    ensures Consistent(docs, QueryParents(docs, cache, resolving, rest, merged).1)
    decreases |Names(docs) - resolving|, 1, |rest|
  {
    if rest != [] {
      var c := rest[0];
      assert c in rest;
      OwnExtends(docs, c);
      var own := Own(docs, c);
      var (parent, filled) := if own.extendsComponent == "" then (None, cache)
                              else Query(docs, cache, own.extendsComponent, resolving);
      if own.extendsComponent != "" {
        QueryIsEffective(docs, cache, own.extendsComponent, resolving);
      }
      QueryParentsIsMerge(docs, filled, name, resolving, rest[1..], OverlayComponents(merged, WithParent(own, parent)));
    }
  }

  // ---- Any sequence of queries.

  ghost function CacheAfter(docs: Documents, names: seq<string>): map<string, Component> {
    if names == [] then map[]
    else Query(docs, CacheAfter(docs, names[..|names| - 1]), names[|names| - 1], {}).1
  }

  /** Between invalidations, queries in any order return the reference value every time. */
  lemma {:induction false} QueriesInAnyOrder(docs: Documents, names: seq<string>, name: string)
    ensures Consistent(docs, CacheAfter(docs, names))
    ensures Acyclic(docs, name) ==> Query(docs, CacheAfter(docs, names), name, {}).0 == Effective(docs, name)
  {
    if names != [] {
      QueriesInAnyOrder(docs, names[..|names| - 1], names[|names| - 1]);
      QueryIsEffective(docs, CacheAfter(docs, names[..|names| - 1]), names[|names| - 1], {});
    }
    QueryIsEffective(docs, CacheAfter(docs, names), name, {});
  }
}
