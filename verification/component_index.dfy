/** The indexer object: live documents, the effective-component cache and its epoch, and
    the methods that read and update them (internal/admin/indexer_effective.go,
    indexer_components.go and live_vue.go). */
module ComponentIndex {
  import opened AdminModel
  import opened ComponentOverlay
  import opened LiveView
  import opened MemberInference
  import opened EffectiveComponent
  import opened StableSort

  /** The `resolving` map an effectiveComponent recursion shares. */
  class Resolving {
    var names: set<string>

    constructor ()
      ensures names == {}
    {
      names := {};
    }
  }

  /** The variables componentWithMixins shares with its recursive applyMixin. */
  class MixinFold {
    const docs: Documents
    const name: string
    var seen: set<string>
    var result: Component

    constructor (docs: Documents, name: string)
      ensures this.docs == docs && this.name == name && seen == {} && result == Blank(name)
    {
      this.docs, this.name := docs, name;
      seen, result := {}, Blank(name);
    }

    /** Applies one mixin and everything it needs; `rest` is what the callers still have to do. */
    method ApplyMixin(m: string, ghost rest: seq<MixinTask>)
      modifies this
      ensures RunMixins(docs, name, [Enter(m)] + rest, old(seen), old(result)) == RunMixins(docs, name, rest, seen, result)
      ensures old(seen) <= seen
      decreases |MixinNames(docs) - seen|, 1
    {
      ghost var goal := RunMixins(docs, name, [Enter(m)] + rest, seen, result);
      EnterStep(docs, name, m, rest, seen, result);
      if m == "" || m in seen {
        return;
      }
      SmallerLeft(MixinNames(docs), seen, m);
      seen := seen + {m};
      var mixins := GetMixin(docs, m);
      if |mixins| == 0 {
        result := result.(openRuntimeMembers := true);
        return;
      }
      FoundMixinIsNamed(docs, m);
      assert mixins[0..] == mixins;
      for i := 0 to |mixins|
        invariant goal == RunMixins(docs, name, Visit(mixins[i..]) + rest, seen, result)
        invariant old(seen) + {m} <= seen
      {
        VisitOne(mixins[i..], rest);
        assert mixins[i..][0] == mixins[i] && mixins[i..][1..] == mixins[i + 1..];
        FewerLeft(MixinNames(docs), old(seen) + {m}, seen);
        ApplyVisited(mixins[i].definition, Visit(mixins[i + 1..]) + rest);
      }
      assert Visit(mixins[|mixins|..]) + rest == rest;
    }

    /** The mixins a definition uses, then the definition itself. */
    method ApplyVisited(d: Definition, ghost rest: seq<MixinTask>)
      modifies this
      ensures RunMixins(docs, name, EnterAll(d.mixins) + ([LayOn(d)] + rest), old(seen), old(result))
           == RunMixins(docs, name, rest, seen, result)
      ensures old(seen) <= seen
      decreases |MixinNames(docs) - seen|, 2
    {
      ghost var later := [LayOn(d)] + rest;
      ghost var goal := RunMixins(docs, name, EnterAll(d.mixins) + later, seen, result);
      assert d.mixins[0..] == d.mixins;
      for j := 0 to |d.mixins|
        invariant goal == RunMixins(docs, name, EnterAll(d.mixins[j..]) + later, seen, result)
        invariant old(seen) <= seen
      {
        EnterOne(d.mixins[j..], later);
        assert d.mixins[j..][0] == d.mixins[j] && d.mixins[j..][1..] == d.mixins[j + 1..];
        FewerLeft(MixinNames(docs), old(seen), seen);
        ApplyMixin(d.mixins[j], EnterAll(d.mixins[j + 1..]) + later);
      }
      assert EnterAll(d.mixins[|d.mixins|..]) + later == later;
      assert later[0] == LayOn(d) && later[1..] == rest;
      result := OverlayInto(result, ApplyDefinition(Blank(name), d));
    }
  }

  /** What entering a mixin unfolds to. */
  lemma EnterStep(docs: Documents, name: string, m: string, rest: seq<MixinTask>, seen: set<string>, result: Component)
    ensures RunMixins(docs, name, [Enter(m)] + rest, seen, result)
         == if m == "" || m in seen then RunMixins(docs, name, rest, seen, result)
            else if GetMixins(docs, m) == [] then RunMixins(docs, name, rest, seen + {m}, result.(openRuntimeMembers := true))
            else RunMixins(docs, name, Visit(GetMixins(docs, m)) + rest, seen + {m}, result)
  {
    assert ([Enter(m)] + rest)[0] == Enter(m) && ([Enter(m)] + rest)[1..] == rest;
  }

  lemma VisitOne(mixins: seq<Mixin>, rest: seq<MixinTask>)
    requires mixins != []
    ensures Visit(mixins) + rest
         == EnterAll(mixins[0].definition.mixins) + ([LayOn(mixins[0].definition)] + (Visit(mixins[1..]) + rest))
  {
    var e, l, v := EnterAll(mixins[0].definition.mixins), [LayOn(mixins[0].definition)], Visit(mixins[1..]);
    assert (e + (l + v)) + rest == e + (l + (v + rest));
  }

  lemma EnterOne(names: seq<string>, later: seq<MixinTask>)
    requires names != []
    ensures EnterAll(names) + later == [Enter(names[0])] + (EnterAll(names[1..]) + later)
  {
    assert EnterAll(names) == [Enter(names[0])] + EnterAll(names[1..]);
  }

  lemma FewerLeft(all: set<string>, a: set<string>, b: set<string>)
    requires a <= b
    ensures |all - b| <= |all - a|
    decreases all - a
  {
    if all - b != all - a {
      var x :| x in all - a && x !in all - b;
      SmallerLeft(all, a, x);
      FewerLeft(all, a + {x}, b);
    }
  }

  /** GetMixin, sorted as componentWithMixins sorts it. */
  method GetMixin(docs: Documents, name: string) returns (mixins: seq<Mixin>)
    ensures mixins == GetMixins(docs, name)
  {
    var persisted := SelectLoop(docs.mixins, MixinNamed(name));
    mixins := OverlayLiveValues(persisted, docs.liveLegacy, MixinFile, MixinsOf, MixinNamed(name));
    mixins := SortStable(mixins, MixinLess);
  }

  method ComponentWithMixins(docs: Documents, c: Component) returns (own: Component)
    ensures own == Own(docs, c)
  {
    var fold := new MixinFold(docs, c.name);
    ghost var goal := RunMixins(docs, c.name, EnterAll(c.mixins), {}, Blank(c.name));
    assert c.mixins[0..] == c.mixins && EnterAll(c.mixins) + [] == EnterAll(c.mixins);
    for i := 0 to |c.mixins|
      invariant fold.docs == docs && fold.name == c.name
      invariant goal == RunMixins(docs, c.name, EnterAll(c.mixins[i..]) + [], fold.seen, fold.result)
    {
      EnterOne(c.mixins[i..], []);
      assert c.mixins[i..][1..] == c.mixins[i + 1..];
      fold.ApplyMixin(c.mixins[i], EnterAll(c.mixins[i + 1..]) + []);
    }
    assert EnterAll(c.mixins[|c.mixins|..]) + [] == [];
    own := OverlayInto(fold.result, c);
  }

  /** What one effectiveComponent call answers and what it leaves in the cache. */
  ghost predicate Answers(docs: Documents, before: map<string, Component>, name: string, resolving: set<string>,
                          result: Option<Component>, after: map<string, Component>) {
    Query(docs, before, name, resolving) == (result, after)
  }

  ghost predicate Merges(docs: Documents, before: map<string, Component>, name: string, resolving: set<string>,
                         components: seq<Component>, merged: Component, after: map<string, Component>) {
    QueryParents(docs, before, resolving, components, Blank(name)) == (merged, after)
  }

  /** The answers that need no activation. */
  lemma AnswersAtOnce(docs: Documents, before: map<string, Component>, name: string, resolving: set<string>)
    ensures name == "" || name in resolving ==> Answers(docs, before, name, resolving, None, before)
    ensures name != "" && name !in resolving && name in before ==>
              Answers(docs, before, name, resolving, Some(before[name]), before)
    ensures name != "" && name !in resolving && name !in before && Ordered(docs, name) == [] ==>
              Answers(docs, before, name, resolving, None, before)
  {
  }

  lemma AnswersUnfold(docs: Documents, before: map<string, Component>, name: string, resolving: set<string>,
                      merged: Component, filled: map<string, Component>)
    requires name != "" && name !in resolving && name !in before && Ordered(docs, name) != []
    requires Merges(docs, before, name, resolving + {name}, Ordered(docs, name), merged, filled)
    ensures Answers(docs, before, name, resolving, Some(Enrich(docs.Types(), merged)),
                    filled[name := Enrich(docs.Types(), merged)])
  {
  }

  class AdminComponentIndexer {
    var docs: Documents
    var effectiveCache: map<string, Component>
    var effectiveCacheEpoch: nat
    var templateCache: map<string, string>
    var templateCatalogBuilt: bool

    constructor (docs: Documents)
      ensures this.docs == docs && effectiveCache == map[] && effectiveCacheEpoch == 0
      ensures templateCache == map[] && !templateCatalogBuilt
    {
      this.docs, effectiveCache, effectiveCacheEpoch := docs, map[], 0;
      templateCache, templateCatalogBuilt := map[], false;
    }

    /** invalidateTemplateComponentCache */
    method Invalidate()
      modifies this`effectiveCache, this`effectiveCacheEpoch, this`templateCache, this`templateCatalogBuilt
      ensures effectiveCache == map[] && effectiveCacheEpoch == old(effectiveCacheEpoch) + 1
      ensures templateCache == map[] && !templateCatalogBuilt
    {
      templateCache, templateCatalogBuilt := map[], false;
      effectiveCache := map[];
      effectiveCacheEpoch := effectiveCacheEpoch + 1;
    }

    /** UpdateLiveDocument and RemoveLiveDocument: write the document maps, then invalidate. */
    method UpdateLiveDocument(edit: Edit)
      modifies this
      ensures docs == ApplyEdit(old(docs), edit)
      ensures Ignored(edit) ==> effectiveCache == old(effectiveCache) && effectiveCacheEpoch == old(effectiveCacheEpoch)
      ensures Ignored(edit) ==> templateCache == old(templateCache) && templateCatalogBuilt == old(templateCatalogBuilt)
      ensures !Ignored(edit) ==> effectiveCache == map[] && effectiveCacheEpoch == old(effectiveCacheEpoch) + 1
      ensures !Ignored(edit) ==> templateCache == map[] && !templateCatalogBuilt
    {
      if edit.path == "" || (!edit.Close? && !IsAdministrationSourcePath(edit.path)) {
        return;
      }
      match edit {
        case UpdateTs(path, types, root) =>
          docs := docs.(liveTypes := docs.liveTypes[path := types]);
          if root.Some? {
            docs := docs.(liveLegacy := docs.liveLegacy[path := root.value]);
          }
        case UpdateJs(path, root) =>
          if root.None? {
            return;
          }
          docs := docs.(liveLegacy := docs.liveLegacy[path := root.value]);
        case UpdateTwig(path, template) =>
          if template.None? {
            return;
          }
          docs := docs.(liveTwig := docs.liveTwig[path := template.value]);
        case Close(path) =>
          docs := docs.(liveLegacy := docs.liveLegacy - {path});
          docs := docs.(liveTwig := docs.liveTwig - {path});
          docs := docs.(liveTypes := docs.liveTypes - {path});
      }
      Invalidate();
    }

    method GetComponent(name: string) returns (components: seq<Component>)
      ensures components == ByName(docs, name)
    {
      var persisted := SelectLoop(docs.components, Named(name));
      components := OverlayLiveValues(persisted, docs.liveLegacy, FileOf, Registrations, NamedOrAll(name));
    }

    /** The registrations of a name, populated in place and sorted. */
    method OrderedRegistrations(name: string) returns (components: seq<Component>)
      ensures components == Ordered(docs, name)
    {
      components := GetComponent(name);
      ghost var read := components;
      for i := 0 to |components|
        invariant |components| == |read|
        invariant forall k :: 0 <= k < |read| ==> components[k] == if k < i then Populate(docs, read[k]) else read[k]
      {
        components := components[i := Populate(docs, components[i])];
      }
      assert components == PopulateAll(docs, read);
      components := SortStable(components, RegistrationLess);
    }

    /** effectiveComponent: guarded by `resolving`, memoised under the epoch it started in. */
    method EffectiveComponent(name: string, resolving: Resolving) returns (result: Option<Component>)
      modifies this`effectiveCache, resolving
      ensures Answers(docs, old(effectiveCache), name, old(resolving.names), result, effectiveCache)
      ensures resolving.names == old(resolving.names)
      decreases |Names(docs) - resolving.names|, 2
    {
      hide Answers, Names, Ordered;
      AnswersAtOnce(docs, effectiveCache, name, resolving.names);
      if name == "" || name in resolving.names {
        return None;
      }
      var epoch := effectiveCacheEpoch;
      if name in effectiveCache {
        return Some(effectiveCache[name]);
      }
      var components := OrderedRegistrations(name);
      if |components| == 0 {
        return None;
      }
      RegisteredIsNamed(docs, name);
      var enriched := ResolveRegistered(name, components, resolving);
      if effectiveCacheEpoch == epoch {
        effectiveCache := effectiveCache[name := enriched];
      }
      return Some(enriched);
    }

    /** The guarded part of effectiveComponent, for a name that has registrations. */
    method ResolveRegistered(name: string, components: seq<Component>, resolving: Resolving) returns (enriched: Component)
      requires name != "" && name !in resolving.names && name !in effectiveCache && name in Names(docs)
      requires components == Ordered(docs, name) && components != []
      modifies this`effectiveCache, resolving
      ensures Answers(docs, old(effectiveCache), name, old(resolving.names), Some(enriched), effectiveCache[name := enriched])
      ensures resolving.names == old(resolving.names)
      decreases |Names(docs) - resolving.names|, 1
    {
      hide Answers, Merges, Names, Ordered, Enrich;
      ghost var guard := resolving.names;
      SmallerLeft(Names(docs), guard, name);
      resolving.names := resolving.names + {name};
      var merged := MergeRegistrations(name, components, resolving);
      AnswersUnfold(docs, old(effectiveCache), name, guard, merged, effectiveCache);
      resolving.names := resolving.names - {name};
      assert guard + {name} - {name} == guard;
      enriched := EnrichInPlace(docs.Types(), merged);
    }

    /** The overlay loop over the registrations, each on top of its resolved parent. */
    method MergeRegistrations(name: string, components: seq<Component>, resolving: Resolving) returns (merged: Component)
      modifies this`effectiveCache, resolving
      ensures Merges(docs, old(effectiveCache), name, old(resolving.names), components, merged, effectiveCache)
      ensures resolving.names == old(resolving.names)
      decreases |Names(docs) - resolving.names|, 3
    {
      hide OverlayComponents;
      merged := Blank(name);
      ghost var goal := QueryParents(docs, effectiveCache, resolving.names, components, merged);
      assert components[0..] == components;
      for i := 0 to |components|
        invariant resolving.names == old(resolving.names)
        invariant goal == QueryParents(docs, effectiveCache, old(resolving.names), components[i..], merged)
      {
        assert components[i..][0] == components[i] && components[i..][1..] == components[i + 1..];
        var own := ComponentWithMixins(docs, components[i]);
        var parent := None;
        if own.extendsComponent != "" {
          parent := EffectiveComponent(own.extendsComponent, resolving);
        }
        merged := OverlayInto(merged, WithParent(own, parent));
      }
    }

    /** GetEffectiveComponent: for a name without a reachable cycle the reference value, whatever
        was queried before; the cache stays consistent. */
    method GetEffectiveComponent(name: string) returns (result: Option<Component>)
      requires Consistent(docs, effectiveCache)
      modifies this`effectiveCache
      ensures Acyclic(docs, name) ==> result == Effective(docs, name)
      ensures Consistent(docs, effectiveCache)
    {
      var resolving := new Resolving();
      QueryIsEffective(docs, effectiveCache, name, {});
      result := EffectiveComponent(name, resolving);
      assert Answers(docs, old(effectiveCache), name, {}, result, effectiveCache);
    }
  }

  method EnrichInPlace(index: TypeIndex, c: Component) returns (enriched: Component)
    ensures enriched == Enrich(index, c)
  {
    var members := new Member[|c.members|](i requires 0 <= i < |c.members| => c.members[i]);
    assert Holds(members, c);
    EnrichMemberTypes(index, c, members);
    EnrichStatics(index, c);
    enriched := c.(members := members[..]);
  }

  lemma EnrichStatics(index: TypeIndex, c: Component)
    ensures Enrich(index, c) == c.(members := Enrich(index, c).members)
  {
    PassesStatics(index, c, |c.members|);
  }
}
