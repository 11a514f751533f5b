/** In which order registrations and mixins are laid, where their definitions come from, and which
    of them decides (internal/admin/indexer_effective.go:73-226 and 315-354). */
module RegistrationOrder {
  import opened AdminModel
  import opened ComponentOverlay
  import opened LiveView
  import opened MemberInference
  import opened EffectiveComponent
  import opened StableSort

  // ---- The order of registrations.

  lemma PathsOrder(less: (string, string) -> bool)
    requires forall x, y :: less(x, y) <==> StringLess(x, y)
    ensures Orders(less)
  {
    forall x, y, z ensures less(x, y) ==> !less(y, x) ensures less(x, z) ==> less(x, y) || less(y, z) {
      StringLessTotal(x, y);
      StringLessTotal(y, z);
      StringLessTotal(x, z);
      if less(z, y) && less(y, x) {
        StringLessTransitive(z, y, x);
      }
      if less(x, z) && !less(x, y) && !less(y, z) {
        if x == y || y == z {
        } else {
          StringLessTransitive(z, y, x);
        }
      }
    }
  }

  lemma RegistrationsOrder()
    ensures Orders(RegistrationLess)
  {
    PathsOrder(StringLess);
    forall x, y, z
      ensures RegistrationLess(x, y) ==> !RegistrationLess(y, x)
      ensures RegistrationLess(x, z) ==> RegistrationLess(x, y) || RegistrationLess(y, z)
    {
      assert StringLess(x.filePath, y.filePath) ==> !StringLess(y.filePath, x.filePath);
      assert StringLess(x.filePath, z.filePath) ==> StringLess(x.filePath, y.filePath) || StringLess(y.filePath, z.filePath);
    }
  }

  lemma MixinsOrder()
    ensures Orders(MixinLess)
  {
    PathsOrder(StringLess);
    forall x, y, z
      ensures MixinLess(x, y) ==> !MixinLess(y, x)
      ensures MixinLess(x, z) ==> MixinLess(x, y) || MixinLess(y, z)
    {
      assert StringLess(x.filePath, y.filePath) ==> !StringLess(y.filePath, x.filePath);
      assert StringLess(x.filePath, z.filePath) ==> StringLess(x.filePath, y.filePath) || StringLess(y.filePath, z.filePath);
    }
  }

  /** The registrations of one group in one file. */
  function InGroup(overrides: bool, path: string): Component -> bool {
    (c: Component) => c.kind.Override? == overrides && c.filePath == path
  }

  /** Registrations are overlaid overrides last, within each group by file path, and within a file as
      they were found; none is lost or repeated. */
  lemma OrderedIsRight(docs: Documents, name: string)
    ensures var ordered, found := Ordered(docs, name), PopulateAll(docs, ByName(docs, name));
            && multiset(ordered) == multiset(found)
            && (forall i, j :: 0 <= i < j < |ordered| && ordered[i].kind.Override? ==> ordered[j].kind.Override?)
            && (forall i, j :: 0 <= i < j < |ordered| && ordered[i].kind.Override? == ordered[j].kind.Override? ==>
                  !Precedes(ordered[j].filePath, ordered[i].filePath))
            && (forall overrides, path :: Passing(ordered, InGroup(overrides, path)) == Passing(found, InGroup(overrides, path)))
  {
    var ordered, found := Ordered(docs, name), PopulateAll(docs, ByName(docs, name));
    RegistrationsOrder();
    SortSorts(found, RegistrationLess);
    SortPermutes(found, RegistrationLess);
    forall i, j | 0 <= i < j < |ordered| ensures !RegistrationLess(ordered[j], ordered[i]) {
    }
    forall i, j | 0 <= i < j < |ordered| && ordered[i].kind.Override? == ordered[j].kind.Override?
      ensures !Precedes(ordered[j].filePath, ordered[i].filePath)
    {
      assert !RegistrationLess(ordered[j], ordered[i]);
      StringLessIff(ordered[j].filePath, ordered[i].filePath);
    }
    forall overrides, path ensures Passing(ordered, InGroup(overrides, path)) == Passing(found, InGroup(overrides, path)) {
      StringLessTotal(path, path);
      SortStays(found, RegistrationLess, InGroup(overrides, path));
    }
  }

  function InMixinFile(path: string): Mixin -> bool {
    (m: Mixin) => m.filePath == path
  }

  /** The mixins of a name are applied by file path, and within a file as they were found. */
  lemma MixinsAreOrdered(docs: Documents, name: string)
    ensures var mixins := GetMixins(docs, name);
            var found := Merged(Select(docs.mixins, MixinNamed(name)), docs.liveLegacy, MixinFile, MixinsOf, MixinNamed(name));
            && multiset(mixins) == multiset(found)
            && (forall i, j :: 0 <= i < j < |mixins| ==> !Precedes(mixins[j].filePath, mixins[i].filePath))
            && (forall path :: Passing(mixins, InMixinFile(path)) == Passing(found, InMixinFile(path)))
  {
    var found := Merged(Select(docs.mixins, MixinNamed(name)), docs.liveLegacy, MixinFile, MixinsOf, MixinNamed(name));
    var mixins := GetMixins(docs, name);
    MixinsOrder();
    SortSorts(found, MixinLess);
    SortPermutes(found, MixinLess);
    forall i, j | 0 <= i < j < |mixins| ensures !Precedes(mixins[j].filePath, mixins[i].filePath) {
      assert !MixinLess(mixins[j], mixins[i]);
      StringLessIff(mixins[j].filePath, mixins[i].filePath);
    }
    forall path ensures Passing(mixins, InMixinFile(path)) == Passing(found, InMixinFile(path)) {
      StringLessTotal(path, path);
      SortStays(found, MixinLess, InMixinFile(path));
    }
  }

  // ---- Where a definition comes from.

  /** The first stored definition under a key. */
  predicate FirstStored(stored: seq<StoredDefinition>, key: string, i: int) {
    0 <= i < |stored| && stored[i].key == key && forall j :: 0 <= j < i ==> stored[j].key != key
  }

  /** The first one under a key from a file. */
  predicate FirstInFile(stored: seq<StoredDefinition>, key: string, path: string, i: int) {
    && 0 <= i < |stored| && stored[i].key == key && stored[i].definition.filePath == path
    && forall j :: 0 <= j < i ==> stored[j].key != key || stored[j].definition.filePath != path
  }

  predicate OnlyStored(stored: seq<StoredDefinition>, key: string, i: int) {
    0 <= i < |stored| && stored[i].key == key && forall j :: 0 <= j < |stored| && j != i ==> stored[j].key != key
  }

  /** The definition path names an open script, or a stored definition. */
  ghost predicate AtPath(docs: Documents, path: string, d: Definition) {
    && path != ""
    && if path in docs.liveLegacy then docs.liveLegacy[path].definition == Some(d)
       else exists i :: FirstStored(docs.definitions, path, i) && docs.definitions[i].definition == d
  }

  predicate Known(docs: Documents, path: string) {
    && path != ""
    && if path in docs.liveLegacy then docs.liveLegacy[path].definition.Some?
       else exists i :: 0 <= i < |docs.definitions| && docs.definitions[i].key == path
  }

  /** The definition of a registration: its own, else the one at its path, else the one under its name
      in its file, else the only one under its name. */
  ghost predicate DefinedBy(docs: Documents, c: Component, d: Definition) {
    if c.inlineDefinition.Some? then c.inlineDefinition == Some(d)
    else if Known(docs, c.definitionPath) then AtPath(docs, c.definitionPath, d)
    else if exists i :: FirstInFile(docs.definitions, c.name, c.filePath, i) then
      exists i :: FirstInFile(docs.definitions, c.name, c.filePath, i) && docs.definitions[i].definition == d
    else exists i :: OnlyStored(docs.definitions, c.name, i) && docs.definitions[i].definition == d
  }

  /** The contract of the definition, with the open template's slots and blocks, under the registration's
      own name, kind, parent and paths. */
  predicate Carries(docs: Documents, populated: Component, c: Component, d: Definition) {
    && populated.name == c.name && populated.kind == c.kind && populated.targetComponent == c.targetComponent
    && populated.extendsComponent == c.extendsComponent && populated.importPath == c.importPath
    && populated.filePath == c.filePath && populated.definitionPath == c.definitionPath && populated.line == c.line
    && populated.inlineDefinition == c.inlineDefinition
    && populated.deprecated == (if d.deprecated != "" then d.deprecated else c.deprecated)
    && populated.props == d.props && populated.modelProp == d.modelProp && populated.modelEvent == d.modelEvent
    && populated.emits == d.emits && populated.events == d.events && populated.methods == d.methods
    && populated.computed == d.computed && populated.data == d.data && populated.injected == d.injected
    && populated.mixins == d.mixins && populated.localComponents == d.localComponents
    && populated.localDirectives == d.localDirectives && populated.members == d.members
    && populated.openRuntimeMembers == d.openRuntimeMembers && populated.assignments == d.assignments
    && populated.templatePath == d.templatePath
    && var open := d.templatePath != "" && d.templatePath in docs.liveTwig;
       && populated.slots == (if open then docs.liveTwig[d.templatePath].slots else d.slots)
       && populated.blocks == (if open then docs.liveTwig[d.templatePath].blocks else d.blocks)
  }

  lemma AppliedCarries(docs: Documents, c: Component, d: Definition)
    ensures Carries(docs, ApplyDefinition(c, WithTemplate(docs, d)), c, d)
  {
  }

  lemma {:induction false} StoredUnder(stored: seq<StoredDefinition>, key: string)
    ensures DefinitionsOf(stored, key) == [] <==> forall i :: 0 <= i < |stored| ==> stored[i].key != key
    ensures DefinitionsOf(stored, key) != [] ==>
              exists i :: FirstStored(stored, key, i) && stored[i].definition == DefinitionsOf(stored, key)[0]
    ensures |DefinitionsOf(stored, key)| == 1 <==> exists i :: OnlyStored(stored, key, i)
    ensures |DefinitionsOf(stored, key)| == 1 ==>
              exists i :: OnlyStored(stored, key, i) && stored[i].definition == DefinitionsOf(stored, key)[0]
  {
    if stored != [] {
      var rest := stored[1..];
      StoredUnder(rest, key);
      assert forall i :: 0 <= i < |rest| ==> rest[i] == stored[i + 1];
      if stored[0].key == key {
        assert FirstStored(stored, key, 0);
        if DefinitionsOf(rest, key) == [] {
          assert OnlyStored(stored, key, 0);
        } else {
          var j :| FirstStored(rest, key, j);
          assert stored[j + 1].key == key;
        }
      } else {
        if i :| FirstStored(rest, key, i) && rest[i].definition == DefinitionsOf(rest, key)[0] {
          assert FirstStored(stored, key, i + 1);
        }
        if i :| OnlyStored(rest, key, i) && rest[i].definition == DefinitionsOf(rest, key)[0] {
          assert OnlyStored(stored, key, i + 1);
        }
        if i :| OnlyStored(stored, key, i) {
          assert OnlyStored(rest, key, i - 1);
        }
      }
    }
  }

  lemma {:induction false} StoredInFile(stored: seq<StoredDefinition>, key: string, path: string)
    ensures var found := InFile(DefinitionsOf(stored, key), path);
            && (found.Some? <==> exists i :: FirstInFile(stored, key, path, i))
            && (found.Some? ==> exists i :: FirstInFile(stored, key, path, i) && stored[i].definition == found.value)
  {
    if stored != [] {
      var rest := stored[1..];
      StoredInFile(rest, key, path);
      assert forall i :: 0 <= i < |rest| ==> rest[i] == stored[i + 1];
      assert DefinitionsOf(stored, key)
          == if stored[0].key == key then [stored[0].definition] + DefinitionsOf(rest, key) else DefinitionsOf(rest, key);
      if stored[0].key == key && stored[0].definition.filePath == path {
        assert FirstInFile(stored, key, path, 0);
      } else {
        if i :| FirstInFile(rest, key, path, i) && Some(rest[i].definition) == InFile(DefinitionsOf(rest, key), path) {
          assert FirstInFile(stored, key, path, i + 1);
        }
        if i :| FirstInFile(stored, key, path, i) {
          assert FirstInFile(rest, key, path, i - 1);
        }
      }
    }
  }

  lemma AtPathIs(docs: Documents, path: string, d: Definition)
    requires path != "" && Known(docs, path)
    ensures DefinitionAt(docs, path).Some?
    ensures AtPath(docs, path, d) ==> DefinitionAt(docs, path) == Some(WithTemplate(docs, d))
  {
    StoredUnder(docs.definitions, path);
    if path !in docs.liveLegacy && AtPath(docs, path, d) {
      var i :| FirstStored(docs.definitions, path, i) && docs.definitions[i].definition == d;
      var j :| FirstStored(docs.definitions, path, j) && docs.definitions[j].definition == DefinitionsOf(docs.definitions, path)[0];
      assert i == j;
    }
  }

  lemma UnknownPath(docs: Documents, path: string)
    requires path != "" && !Known(docs, path)
    ensures DefinitionAt(docs, path).None?
  {
    StoredUnder(docs.definitions, path);
  }

  /** A registration is populated by its definition, if it has one, and stays as it is otherwise. */
  lemma PopulateChooses(docs: Documents, c: Component)
    ensures forall d :: DefinedBy(docs, c, d) ==> Carries(docs, Populate(docs, c), c, d)
    ensures (forall d :: !DefinedBy(docs, c, d)) ==> Populate(docs, c) == c
  {
    hide Carries;
    var stored := docs.definitions;
    if c.inlineDefinition.Some? {
      AppliedCarries(docs, c, c.inlineDefinition.value);
      assert DefinedBy(docs, c, c.inlineDefinition.value);
    } else if Known(docs, c.definitionPath) {
      PopulateAtPath(docs, c);
      var d :| AtPath(docs, c.definitionPath, d);
      assert DefinedBy(docs, c, d);
    } else {
      if c.definitionPath != "" {
        UnknownPath(docs, c.definitionPath);
      }
      PopulateByName(docs, c);
    }
  }

  lemma PopulateAtPath(docs: Documents, c: Component)
    requires c.inlineDefinition.None? && Known(docs, c.definitionPath)
    ensures forall d :: AtPath(docs, c.definitionPath, d) ==> Carries(docs, Populate(docs, c), c, d)
    ensures exists d :: AtPath(docs, c.definitionPath, d)
  {
    hide Carries;
    forall d | AtPath(docs, c.definitionPath, d) ensures Carries(docs, Populate(docs, c), c, d) {
      AtPathIs(docs, c.definitionPath, d);
      AppliedCarries(docs, c, d);
    }
    if c.definitionPath in docs.liveLegacy {
      assert AtPath(docs, c.definitionPath, docs.liveLegacy[c.definitionPath].definition.value);
    } else {
      StoredUnder(docs.definitions, c.definitionPath);
      var i :| FirstStored(docs.definitions, c.definitionPath, i)
               && docs.definitions[i].definition == DefinitionsOf(docs.definitions, c.definitionPath)[0];
      assert AtPath(docs, c.definitionPath, docs.definitions[i].definition);
    }
  }

  lemma PopulateByName(docs: Documents, c: Component)
    requires c.inlineDefinition.None? && !Known(docs, c.definitionPath)
    requires c.definitionPath != "" ==> DefinitionAt(docs, c.definitionPath).None?
    ensures forall d :: DefinedBy(docs, c, d) ==> Carries(docs, Populate(docs, c), c, d)
    ensures (forall d :: !DefinedBy(docs, c, d)) ==> Populate(docs, c) == c
  {
    hide Carries;
    var stored := docs.definitions;
    StoredInFile(stored, c.name, c.filePath);
    StoredUnder(stored, c.name);
    var own, named := InFile(DefinitionsOf(stored, c.name), c.filePath), DefinitionsOf(stored, c.name);
    if own.Some? {
      var i :| FirstInFile(stored, c.name, c.filePath, i) && stored[i].definition == own.value;
      AppliedCarries(docs, c, own.value);
      assert DefinedBy(docs, c, own.value);
      assert forall j :: FirstInFile(stored, c.name, c.filePath, j) ==> j == i;
    } else if |named| == 1 {
      var i :| OnlyStored(stored, c.name, i) && stored[i].definition == named[0];
      AppliedCarries(docs, c, named[0]);
      assert DefinedBy(docs, c, named[0]);
      assert forall j :: OnlyStored(stored, c.name, j) ==> j == i;
    }
  }

  // ---- Which registration decides.

  /** The fields of which a filled one wins. */
  datatype Scalar = TemplatePath | DefinitionPath | FilePath | ModelProp | ModelEvent | ImportPath | TargetComponent | Extends
    | Deprecation

  function Of(f: Scalar, c: Component): string {
    match f
    case TemplatePath => c.templatePath
    case DefinitionPath => c.definitionPath
    case FilePath => c.filePath
    case ModelProp => c.modelProp
    case ModelEvent => c.modelEvent
    case ImportPath => c.importPath
    case TargetComponent => c.targetComponent
    case Extends => c.extendsComponent
    case Deprecation => c.deprecated
  }

  lemma OverlayDecides(f: Scalar, base: Component, overlay: Component)
    ensures Of(f, OverlayComponents(base, overlay)) == if Of(f, overlay) != "" then Of(f, overlay) else Of(f, base)
  {
  }

  lemma {:induction false} PassesKeepRest(index: TypeIndex, c: Component, n: nat)
    ensures Passes(index, c, n) == c.(members := Passes(index, c, n).members)
  {
    if n > 0 {
      var d := Passes(index, c, n - 1);
      PassesKeepRest(index, c, n - 1);
      InferKeepsRest(index, d, |d.members|);
      FlowKeepsRest(index, InferUpTo(index, d, |d.members|), |d.members|);
    }
  }

  lemma {:induction false} InferKeepsRest(index: TypeIndex, c: Component, n: nat)
    requires n <= |c.members|
    ensures InferUpTo(index, c, n) == c.(members := InferUpTo(index, c, n).members)
  {
    if n > 0 {
      InferKeepsRest(index, c, n - 1);
    }
  }

  lemma {:induction false} FlowKeepsRest(index: TypeIndex, c: Component, n: nat)
    requires n <= |c.members|
    ensures FlowUpTo(index, c, n) == c.(members := FlowUpTo(index, c, n).members)
  {
    if n > 0 {
      FlowKeepsRest(index, c, n - 1);
    }
  }

  ghost function ParentOf(docs: Documents, c: Component): Option<Component> {
    if c.extendsComponent == "" then None else Effective(docs, c.extendsComponent)
  }

  /** A registration over its mixins and its parent. */
  ghost function Laid(docs: Documents, c: Component): Component {
    WithParent(Own(docs, c), ParentOf(docs, c))
  }

  /** The registration itself decides over its mixins, and these over the parent, whose deprecation is
      not inherited. */
  lemma LaidDecides(docs: Documents, c: Component, f: Scalar)
    ensures var mixed := RunMixins(docs, c.name, EnterAll(c.mixins), {}, Blank(c.name));
            var parent := ParentOf(docs, c);
            Of(f, Laid(docs, c))
            == if Of(f, c) != "" then Of(f, c)
               else if Of(f, mixed) != "" then Of(f, mixed)
               else if parent.Some? && !f.Deprecation? then Of(f, parent.value) else ""
  {
    hide RunMixins, Effective;
    var mixed := RunMixins(docs, c.name, EnterAll(c.mixins), {}, Blank(c.name));
    OverlayDecides(f, mixed, c);
    if ParentOf(docs, c).Some? {
      OverlayDecides(f, ParentOf(docs, c).value, Own(docs, c));
    }
  }

  lemma {:induction false} MergeDecides(docs: Documents, h: nat, rest: seq<Component>, merged: Component, f: Scalar, k: nat)
    requires Below(docs, rest, h) && k < |rest| && Of(f, Laid(docs, rest[k])) != ""
    requires forall i :: k < i < |rest| ==> Of(f, Laid(docs, rest[i])) == ""
    ensures Of(f, MergeFrom(docs, h, rest, merged)) == Of(f, Laid(docs, rest[k]))
    decreases |rest|
  {
    hide Effective, Own, WithParent;
    var next := OverlayComponents(merged, Laid(docs, rest[0]));
    OverlayDecides(f, merged, Laid(docs, rest[0]));
    assert rest[0] in rest;
    if k > 0 {
      MergeDecides(docs, h, rest[1..], next, f, k - 1);
    } else {
      MergeKeeps(docs, h, rest[1..], next, f);
    }
  }

  lemma {:induction false} MergeKeeps(docs: Documents, h: nat, rest: seq<Component>, merged: Component, f: Scalar)
    requires Below(docs, rest, h) && forall c :: c in rest ==> Of(f, Laid(docs, c)) == ""
    ensures Of(f, MergeFrom(docs, h, rest, merged)) == Of(f, merged)
    decreases |rest|
  {
    hide Effective, Own, WithParent;
    if rest != [] {
      OverlayDecides(f, merged, Laid(docs, rest[0]));
      assert rest[0] in rest;
      MergeKeeps(docs, h, rest[1..], OverlayComponents(merged, Laid(docs, rest[0])), f);
    }
  }

  /** The last registration that fills a field, with its mixins and its parent, decides it in the
      effective component; so an override decides over what it overrides. */
  lemma LastFilledDecides(docs: Documents, name: string, f: Scalar, k: nat)
    requires name != "" && Acyclic(docs, name) && k < |Ordered(docs, name)|
    requires Of(f, Laid(docs, Ordered(docs, name)[k])) != ""
    requires forall i :: k < i < |Ordered(docs, name)| ==> Of(f, Laid(docs, Ordered(docs, name)[i])) == ""
    ensures Effective(docs, name).Some? && Of(f, Effective(docs, name).value) == Of(f, Laid(docs, Ordered(docs, name)[k]))
  {
    hide Ordered, Laid, Passes;
    var ordered, h := Ordered(docs, name), Height(docs, name);
    OrderedBelow(docs, name);
    MergeDecides(docs, h, ordered, Blank(name), f, k);
    var merged := MergeFrom(docs, h, ordered, Blank(name));
    PassesKeepRest(docs.Types(), merged, |merged.members|);
  }

  // ---- Which mixin decides.

  /** What is laid last lies on top of everything before it. */
  lemma {:induction false} LaidLast(docs: Documents, name: string, tasks: seq<MixinTask>, d: Definition, seen: set<string>,
                                   result: Component)
    ensures RunMixins(docs, name, tasks + [LayOn(d)], seen, result)
         == OverlayComponents(RunMixins(docs, name, tasks, seen, result), ApplyDefinition(Blank(name), d))
    decreases |MixinNames(docs) - seen|, |tasks|
  {
    hide OverlayComponents, ApplyDefinition, GetMixins, Visit, MixinNames;
    var all := tasks + [LayOn(d)];
    if tasks == [] {
      assert all[1..] == [] && all[0] == LayOn(d);
    } else {
      assert all[0] == tasks[0] && all[1..] == tasks[1..] + [LayOn(d)];
      match tasks[0]
      case LayOn(e) => LaidLast(docs, name, tasks[1..], d, seen, OverlayComponents(result, ApplyDefinition(Blank(name), e)));
      case Enter(m) =>
        if m == "" || m in seen {
          LaidLast(docs, name, tasks[1..], d, seen, result);
        } else {
          var mixins := GetMixins(docs, m);
          SmallerLeft(MixinNames(docs), seen, m);
          if mixins == [] {
            LaidLast(docs, name, tasks[1..], d, seen + {m}, result.(openRuntimeMembers := true));
          } else {
            FoundMixinIsNamed(docs, m);
            assert Visit(mixins) + all[1..] == Visit(mixins) + tasks[1..] + [LayOn(d)];
            LaidLast(docs, name, Visit(mixins) + tasks[1..], d, seen + {m}, result);
          }
        }
    }
  }

  lemma {:induction false} VisitEnds(mixins: seq<Mixin>)
    requires mixins != []
    ensures var init, last := mixins[..|mixins| - 1], mixins[|mixins| - 1];
            Visit(mixins) == Visit(init) + EnterAll(last.definition.mixins) + [LayOn(last.definition)]
  {
    if |mixins| == 1 {
      assert mixins[..0] == [] && Visit(mixins[1..]) == [];
    } else {
      VisitEnds(mixins[1..]);
      assert mixins[1..][..|mixins[1..]| - 1] == mixins[..|mixins| - 1][1..];
    }
  }

  /** Of the mixins of one name, the last by file lies on top, over the mixins it uses itself and over
      the others of the name. */
  lemma MixinOnTop(docs: Documents, name: string, m: string)
    requires m != "" && GetMixins(docs, m) != []
    ensures var mixins := GetMixins(docs, m);
            var last := mixins[|mixins| - 1].definition;
            var under := RunMixins(docs, name, Visit(mixins[..|mixins| - 1]) + EnterAll(last.mixins), {m}, Blank(name));
            RunMixins(docs, name, EnterAll([m]), {}, Blank(name)) == OverlayComponents(under, ApplyDefinition(Blank(name), last))
  {
    hide OverlayComponents, GetMixins;
    var mixins := GetMixins(docs, m);
    var init, last := mixins[..|mixins| - 1], mixins[|mixins| - 1].definition;
    assert EnterAll([m])[0] == Enter(m) && EnterAll([m])[1..] == [];
    SmallerLeft(MixinNames(docs), {}, m);
    FoundMixinIsNamed(docs, m);
    VisitEnds(mixins);
    assert Visit(mixins) + [] == Visit(mixins) && {} + {m} == {m};
    LaidLast(docs, name, Visit(init) + EnterAll(last.mixins), last, {m}, Blank(name));
  }

  /** A mixin that cannot be found leaves the component open. */
  lemma UnknownMixinOpens(docs: Documents, name: string, m: string)
    requires m != "" && GetMixins(docs, m) == []
    ensures RunMixins(docs, name, EnterAll([m]), {}, Blank(name)) == Blank(name).(openRuntimeMembers := true)
  {
    assert EnterAll([m])[0] == Enter(m) && EnterAll([m])[1..] == [];
    SmallerLeft(MixinNames(docs), {}, m);
  }
}
