/** Runs that show what the epoch protocol does not promise: an activation with an older epoch
    that cuts off a newer one, indexing that writes after it invalidates, and a cycle of
    `extends` (internal/admin/indexer_effective.go:165-239, indexer.go:201-241). */
module EpochWitnesses {
  import opened AdminModel
  import opened Overlay
  import opened ComponentOverlay
  import opened LiveView
  import opened MemberInference
  import opened EffectiveComponent
  import opened StableSort
  import opened EpochProtocol

  // ---- Runs in pieces.

  /** Readers, live edits, and invalidations from anywhere, but no write by the indexing. */
  predicate LiveEditsOnly(actions: seq<Action>) {
    forall a :: a in actions ==> !a.IndexWrite?
  }

  /** A legal run from one state to another through documents without cycles of `extends`. */
  ghost predicate Trace(s: State, actions: seq<Action>, t: State) {
    Legal(s, actions) && After(s, actions) == t && AlwaysAcyclic(s, actions)
  }

  ghost predicate NoCycles(docs: Documents) {
    forall n :: Acyclic(docs, n)
  }

  ghost predicate AlwaysAcyclic(s: State, actions: seq<Action>)
    requires Legal(s, actions)
    decreases |actions|
  {
    NoCycles(s.docs) && (actions != [] ==> AlwaysAcyclic(Next(s, actions[0]), actions[1..]))
  }

  lemma {:induction false} TraceThen(s: State, a: seq<Action>, t: State, b: seq<Action>, u: State)
    requires Trace(s, a, t) && Trace(t, b, u)
    ensures Trace(s, a + b, u)
    decreases |a|
  {
    if a == [] {
      assert a + b == b;
    } else {
      TraceThen(Next(s, a[0]), a[1..], t, b, u);
      assert (a + b)[0] == a[0] && (a + b)[1..] == a[1..] + b;
    }
  }

  lemma TraceOne(s: State, a: Action, t: State)
    requires NoCycles(s.docs) && NoCycles(t.docs) && Enabled(s, a) && Next(s, a) == t
    ensures Trace(s, [a], t)
  {
    assert [a][1..] == [];
  }

  ghost function Reading(s: State, stack: seq<Frame>): State {
    s.(readers := [Running(stack)])
  }

  /** A step of the only reader that stays inside its innermost activation. */
  lemma TraceLocal(s: State, below: seq<Frame>, f: Frame, phase: Phase)
    requires NoCycles(s.docs) && Stacked(below + [f]) && WellFormed(f) && !f.phase.Asking? && !f.phase.Publishing?
    requires f.phase.Fetching? ==> ByName(s.docs, f.name) != []
    requires phase == Local(s.docs, f)
    ensures Trace(Reading(s, below + [f]), [Advance(0)], Reading(s, below + [f.(phase := phase)]))
    ensures Stacked(below + [f.(phase := phase)])
  {
    var stack, next := below + [f], f.(phase := phase);
    assert stack[..|stack| - 1] == below && stack[|stack| - 1] == f;
    LocalIsWellFormed(s.docs, f);
    ReplaceTop(stack, next);
    assert AdvanceReader(Reading(s, stack), stack) == (Running(below + [next]), s.cache);
    TraceOne(Reading(s, stack), Advance(0), Reading(s, below + [next]));
  }

  const FOUR: seq<Action> := [Advance(0), Advance(0)] + [Advance(0), Advance(0)]

  lemma TraceTwice(s: State, t: State, u: State)
    requires Trace(s, [Advance(0)], t) && Trace(t, [Advance(0)], u)
    ensures Trace(s, [Advance(0), Advance(0)], u)
  {
    TraceThen(s, [Advance(0)], t, [Advance(0)], u);
    assert [Advance(0)] + [Advance(0)] == [Advance(0), Advance(0)];
  }

  lemma TracePopulated(s: State, below: seq<Frame>, name: string, epoch: nat, c: Component)
    requires NoCycles(s.docs) && Stacked(below + [Frame(name, epoch, Fetching)]) && name != ""
    requires ByName(s.docs, name) == [c]
    ensures Trace(Reading(s, below + [Frame(name, epoch, Fetching)]), [Advance(0), Advance(0)],
                  Reading(s, below + [Frame(name, epoch, Populating([Populate(s.docs, c)], 1))]))
    ensures Stacked(below + [Frame(name, epoch, Populating([Populate(s.docs, c)], 1))])
  {
    hide ByName;
    var p := Populate(s.docs, c);
    var f0, f1 := Frame(name, epoch, Fetching), Frame(name, epoch, Populating([c], 0));
    TraceLocal(s, below, f0, f1.phase);
    assert [c][0 := p] == [p];
    TraceLocal(s, below, f1, Populating([p], 1));
    TraceTwice(Reading(s, below + [f0]), Reading(s, below + [f1]), Reading(s, below + [f1.(phase := Populating([p], 1))]));
  }

  lemma TraceLaid(s: State, below: seq<Frame>, name: string, epoch: nat, p: Component)
    requires NoCycles(s.docs) && Stacked(below + [Frame(name, epoch, Populating([p], 1))]) && name != ""
    requires p.mixins == []
    ensures Trace(Reading(s, below + [Frame(name, epoch, Populating([p], 1))]), [Advance(0), Advance(0)],
                  Reading(s, below + [Frame(name, epoch, Laid(name, p))]))
    ensures Stacked(below + [Frame(name, epoch, Laid(name, p))])
  {
    var mixing := Mixing([p], Blank(name), [], {}, Blank(p.name));
    var f2, f3 := Frame(name, epoch, Populating([p], 1)), Frame(name, epoch, mixing);
    SortOne(p);
    TraceLocal(s, below, f2, mixing);
    TraceLocal(s, below, f3, Laid(name, p));
    TraceTwice(Reading(s, below + [f2]), Reading(s, below + [f3]), Reading(s, below + [f3.(phase := Laid(name, p))]));
  }

  /** A name with one registration and no mixins is fetched, populated, sorted and laid. */
  lemma TraceSingle(s: State, below: seq<Frame>, name: string, epoch: nat, c: Component, p: Component)
    requires NoCycles(s.docs) && Stacked(below + [Frame(name, epoch, Fetching)]) && name != ""
    requires ByName(s.docs, name) == [c] && p == Populate(s.docs, c) && p.mixins == []
    ensures Trace(Reading(s, below + [Frame(name, epoch, Fetching)]), FOUR,
                  Reading(s, below + [Frame(name, epoch, Laid(name, p))]))
    ensures Stacked(below + [Frame(name, epoch, Laid(name, p))])
  {
    TracePopulated(s, below, name, epoch, c);
    TraceLaid(s, below, name, epoch, p);
    TraceThen(Reading(s, below + [Frame(name, epoch, Fetching)]), [Advance(0), Advance(0)],
              Reading(s, below + [Frame(name, epoch, Populating([p], 1))]), [Advance(0), Advance(0)],
              Reading(s, below + [Frame(name, epoch, Laid(name, p))]));
  }

  /** A reader that begins with an empty cache gets as far as laying the registration. */
  lemma TraceBegin(s: State, name: string, c: Component, p: Component)
    requires NoCycles(s.docs) && s.readers == [Idle] && s.cache == map[] && name != ""
    requires ByName(s.docs, name) == [c] && p == Populate(s.docs, c) && p.mixins == []
    ensures Trace(s, [Begin(0, name)] + FOUR, Reading(s, [Frame(name, s.epoch, Laid(name, p))]))
    ensures Stacked([Frame(name, s.epoch, Laid(name, p))])
  {
    hide Laid, ByName;
    var fetching, laid := Frame(name, s.epoch, Fetching), Frame(name, s.epoch, Laid(name, p));
    assert Resolving([]) == {};
    TraceOne(s, Begin(0, name), Reading(s, [fetching]));
    assert [] + [fetching] == [fetching] && [] + [laid] == [laid];
    TraceSingle(s, [], name, s.epoch, c, p);
    TraceThen(s, [Begin(0, name)], Reading(s, [fetching]), FOUR, Reading(s, [laid]));
  }

  /** An activation of the current epoch enriches what it merged and publishes it. */
  lemma TracePublish(s: State, below: seq<Frame>, f: Frame) returns (t: State)
    requires NoCycles(s.docs) && Stacked(below + [f]) && WellFormed(f) && f.phase.Enriching? && f.epoch == s.epoch
    ensures Trace(Reading(s, below + [f]), [Advance(0)] + [Advance(0)], t)
    ensures t.docs == s.docs && t.pending == s.pending && t.epoch == s.epoch
    ensures t.cache == s.cache[f.name := Enrich(s.docs.Types(), f.phase.merged)]
  {
    var publishing := f.(phase := Publishing(Enrich(s.docs.Types(), f.phase.merged)));
    var stack := below + [publishing];
    TraceLocal(s, below, f, publishing.phase);
    assert stack[|stack| - 1] == publishing;
    t := Next(Reading(s, stack), Advance(0));
    TraceOne(Reading(s, stack), Advance(0), t);
    TraceThen(Reading(s, below + [f]), [Advance(0)], Reading(s, stack), [Advance(0)], t);
  }

  /** An activation asks for a name another one of the same call resolves, and goes on without it. */
  lemma TraceCut(s: State, outer: Frame, asking: Frame)
    requires NoCycles(s.docs) && Stacked([outer] + [asking]) && asking.phase.Asking?
    requires asking.phase.own.extendsComponent == outer.name
    ensures Trace(Reading(s, [outer] + [asking]), [Advance(0)], Reading(s, [outer] + [Resume(asking, None)]))
    ensures Stacked([outer] + [Resume(asking, None)])
  {
    hide OverlayComponents, NextComponent;
    var stack := [outer] + [asking];
    assert stack[0] == outer && outer.name in Resolving(stack);
    assert stack[..|stack| - 1] == [outer] && stack[|stack| - 1] == asking;
    assert WellFormed(stack[1]);
    ResumeIsWellFormed(asking, None);
    ReplaceTop(stack, Resume(asking, None));
    TraceOne(Reading(s, stack), Advance(0), Reading(s, [outer] + [Resume(asking, None)]));
  }

  function Laid(name: string, p: Component): Phase {
    MixDone(Mixing([p], Blank(name), [], {}, Blank(p.name)))
  }

  lemma SortOne(p: Component)
    ensures SortStable([p], RegistrationLess) == [p]
  {
    assert [p][..0] == [];
  }

  // ---- Small documents.

  const PATH := "/Resources/app/administration/src/main.js"

  const NO_DEFINITION := Definition("", "", [], "", "", [], [], [], [], [], [], [], [], [], [], false, [], [], [], "")

  /** A component registered in the file with one method, extending `parent` unless it is empty. */
  function Registered(name: string, parent: string, methodName: string): Component {
    Blank(name).(filePath := PATH, extendsComponent := parent,
                 inlineDefinition := Some(NO_DEFINITION.(methods := [methodName])))
  }

  function WithMethod(name: string, parent: string, methodName: string): Component {
    Registered(name, parent, methodName).(methods := [methodName])
  }

  const NO_TYPES := TypeIndex(map[], map[], {})

  const READ_NOTHING: map<string, string> -> TypeIndex := (files: map<string, string>) => NO_TYPES

  /** One open script and nothing indexed. */
  function Live(registrations: seq<Component>): Documents {
    Documents([], [], [], map[], READ_NOTHING, map[PATH := LegacyDocument(None, registrations, [])], map[], map[])
  }

  /** Indexed registrations and nothing open. */
  function Stored(components: seq<Component>): Documents {
    Documents(components, [], [], map[], READ_NOTHING, map[], map[], map[])
  }

  lemma PopulateRegistered(docs: Documents, name: string, parent: string, methodName: string)
    ensures Populate(docs, Registered(name, parent, methodName)) == WithMethod(name, parent, methodName)
  {
  }

  lemma OnlyPath()
    ensures PathOrder({PATH}) == [PATH]
  {
    SortedUnique(PathOrder({PATH}), [PATH]);
  }

  lemma SelectOne<T>(x: T, keep: T -> bool)
    ensures Select([x], keep) == if keep(x) then [x] else []
  {
    assert [x][..0] == [];
  }

  lemma SelectTwo<T>(x: T, y: T, keep: T -> bool)
    ensures Select([x, y], keep) == (if keep(x) then [x] else []) + (if keep(y) then [y] else [])
  {
    assert [x, y][..1] == [x];
    SelectOne(x, keep);
  }

  lemma LiveByName(registrations: seq<Component>, name: string)
    ensures ByName(Live(registrations), name) == Select(registrations, NamedOrAll(name))
  {
    var live, keep := Live(registrations).liveLegacy, NamedOrAll(name);
    OnlyPath();
    assert live.Keys == {PATH};
    assert [PATH][..0] == [];
    assert LiveValues(live, [PATH], Registrations, keep)
        == LiveValues(live, [], Registrations, keep) + Select(Registrations(live[PATH]), keep);
  }

  lemma StoredByName(c: Component, name: string)
    ensures ByName(Stored([c]), name) == if c.name == name then [c] else []
  {
    var live, keep := Stored([c]).liveLegacy, Shadowed(Stored([c]).liveLegacy, FileOf, NamedOrAll(name));
    SelectOne(c, Named(name));
    SelectOne(c, keep);
    assert live.Keys == {} && PathOrder({}) == [];
    assert LiveValues(live, [], Registrations, NamedOrAll(name)) == [];
  }

  // ---- Values.

  lemma EnrichKeepsMethods(index: TypeIndex, c: Component)
    ensures Enrich(index, c).methods == c.methods
  {
    PassesStatics(index, c, |c.members|);
  }

  lemma LayMethods(base: seq<string>, name: string)
    requires name != "" && |base| <= 1 && name !in base
    ensures Lay(base, [name], NAMES) == base + [name]
  {
    assert [name][..0] == [];
    assert Lay(base, [], NAMES) == base;
    assert base != [] ==> base[..0] == [];
  }

  lemma OrderedOne(docs: Documents, name: string, c: Component, p: Component)
    requires ByName(docs, name) == [c] && p == Populate(docs, c)
    ensures Ordered(docs, name) == [p]
  {
    assert PopulateAll(docs, [c]) == [p];
    SortOne(p);
  }

  lemma FoldedOne(docs: Documents, p: Component, merged: Component)
    requires p.mixins == []
    ensures Folded(docs, [p], merged)
         == OverlayComponents(merged, WithParent(OverlayComponents(Blank(p.name), p), ParentOf(docs, p)))
  {
    OwnWithoutMixins(docs, p);
    var next := OverlayComponents(merged, WithParent(Own(docs, p), ParentOf(docs, p)));
    assert [p][1..] == [] && Folded(docs, [], next) == next;
  }

  lemma OwnWithoutMixins(docs: Documents, p: Component)
    requires p.mixins == []
    ensures Own(docs, p) == OverlayComponents(Blank(p.name), p)
  {
    assert EnterAll(p.mixins) == [];
  }

  /** The effective component of a name with one registration and no mixins. */
  lemma SingleEffective(docs: Documents, name: string, c: Component, p: Component)
    requires name != "" && Acyclic(docs, name) && ByName(docs, name) == [c]
    requires p == Populate(docs, c) && p.mixins == []
    ensures Effective(docs, name)
         == Some(Enrich(docs.Types(),
                        OverlayComponents(Blank(name), WithParent(OverlayComponents(Blank(p.name), p), ParentOf(docs, p)))))
  {
    EffectiveFolds(docs, name);
    OrderedOne(docs, name, c, p);
    FoldedOne(docs, p, Blank(name));
  }

  // ---- An older activation cuts off a newer one.

  /** A child and its parent, each with one method. */
  function Pair(child: string, childMethod: string, parent: string, parentMethod: string): Documents {
    Live([Registered(child, parent, childMethod), Registered(parent, "", parentMethod)])
  }

  lemma PairByName(child: string, childMethod: string, parent: string, parentMethod: string, name: string)
    requires child != parent && child != "" && parent != ""
    ensures ByName(Pair(child, childMethod, parent, parentMethod), name)
         == (if name == "" || child == name then [Registered(child, parent, childMethod)] else [])
          + (if name == "" || parent == name then [Registered(parent, "", parentMethod)] else [])
  {
    var x, y := Registered(child, parent, childMethod), Registered(parent, "", parentMethod);
    LiveByName([x, y], name);
    SelectTwo(x, y, NamedOrAll(name));
  }

  lemma PairNoCycles(child: string, childMethod: string, parent: string, parentMethod: string)
    requires child != parent && child != "" && parent != ""
    ensures NoCycles(Pair(child, childMethod, parent, parentMethod))
  {
    var docs := Pair(child, childMethod, parent, parentMethod);
    var rank := (n: string) => if n == "" then 2 else if n == child then 1 else 0;
    forall n, p | p in Parents(docs, n) ensures rank(p) < rank(n) {
      PairByName(child, childMethod, parent, parentMethod, n);
    }
    forall n ensures Acyclic(docs, n) {
      RankedIsAcyclic(docs, rank, n);
    }
  }

  /** The truncated value the cut activation computes for the child. */
  function Truncated(name: string, parent: string, methodName: string): Component {
    Enrich(NO_TYPES, OverlayComponents(Blank(name), OverlayComponents(Blank(name), WithMethod(name, parent, methodName))))
  }

  lemma TruncatedMethods(name: string, parent: string, methodName: string)
    requires methodName != ""
    ensures Truncated(name, parent, methodName).methods == [methodName]
  {
    var own := OverlayComponents(Blank(name), WithMethod(name, parent, methodName));
    LayMethods([], methodName);
    assert own.methods == [methodName];
    EnrichKeepsMethods(NO_TYPES, OverlayComponents(Blank(name), own));
  }

  lemma PairEffective(child: string, childMethod: string, parent: string, parentMethod: string)
    requires child != parent && child != "" && parent != "" && childMethod != parentMethod
    requires childMethod != "" && parentMethod != ""
    ensures var docs := Pair(child, childMethod, parent, parentMethod);
            Effective(docs, child).Some? && Effective(docs, child).value.methods == [parentMethod, childMethod]
  {
    var docs := Pair(child, childMethod, parent, parentMethod);
    var p, q := WithMethod(child, parent, childMethod), WithMethod(parent, "", parentMethod);
    PairNoCycles(child, childMethod, parent, parentMethod);
    PairByName(child, childMethod, parent, parentMethod, child);
    PairByName(child, childMethod, parent, parentMethod, parent);
    PopulateRegistered(docs, child, parent, childMethod);
    PopulateRegistered(docs, parent, "", parentMethod);
    SingleEffective(docs, child, Registered(child, parent, childMethod), p);
    SingleEffective(docs, parent, Registered(parent, "", parentMethod), q);
    TruncatedMethods(parent, "", parentMethod);
    ChildMethods(docs, child, p, Effective(docs, parent).value, childMethod, parentMethod);
  }

  lemma WithParentMethods(own: Component, parent: Component)
    ensures WithParent(own, Some(parent)).methods == Lay(parent.methods, own.methods, NAMES)
  {
  }

  lemma OverBlankMethods(index: TypeIndex, name: string, c: Component)
    ensures Enrich(index, OverlayComponents(Blank(name), c)).methods == Lay([], c.methods, NAMES)
    ensures OverlayComponents(Blank(name), c).methods == Lay([], c.methods, NAMES)
  {
    EnrichKeepsMethods(index, OverlayComponents(Blank(name), c));
  }

  lemma ChildMethods(docs: Documents, child: string, p: Component, parent: Component, childMethod: string, parentMethod: string)
    requires p.methods == [childMethod] && parent.methods == [parentMethod] && childMethod != parentMethod
    requires childMethod != "" && parentMethod != ""
    ensures Enrich(docs.Types(), OverlayComponents(Blank(child),
              WithParent(OverlayComponents(Blank(p.name), p), Some(parent)))).methods == [parentMethod, childMethod]
  {
    OverBlankMethods(docs.Types(), p.name, p);
    LayMethods([], childMethod);
    ChildOverParent(docs, child, OverlayComponents(Blank(p.name), p), parent, childMethod, parentMethod);
  }

  lemma ChildOverParent(docs: Documents, child: string, own: Component, parent: Component, childMethod: string,
                        parentMethod: string)
    requires own.methods == [childMethod] && parent.methods == [parentMethod] && childMethod != parentMethod
    requires childMethod != "" && parentMethod != ""
    ensures Enrich(docs.Types(), OverlayComponents(Blank(child), WithParent(own, Some(parent)))).methods
         == [parentMethod, childMethod]
  {
    WithParentMethods(own, parent);
    LayMethods([parentMethod], childMethod);
    OverBlankMethods(docs.Types(), child, WithParent(own, Some(parent)));
    LayBoth(parentMethod, childMethod);
  }

  lemma LayBoth(x: string, y: string)
    requires x != y && x != "" && y != ""
    ensures Lay([], [x, y], NAMES) == [x, y]
  {
    assert [x, y][..1] == [x];
    LayMethods([], x);
    assert [x][..0] == [];
  }

  const OLDER := Pair("P", "mp", "A", "ma")
  const NEWER := Pair("A", "ma", "P", "mp")

  const SWAP := UpdateJs(PATH, Some(LegacyDocument(None, [Registered("A", "P", "ma"), Registered("P", "", "mp")], [])))

  lemma SwapEdits()
    ensures !Ignored(SWAP) && ApplyEdit(OLDER, SWAP) == NEWER
  {
    assert SOURCE_MARKER <= PATH[0..];
  }

  function Waits(parent: string, name: string, methodName: string): Frame {
    Frame(name, if name == "P" then 0 else 1, Laid(name, WithMethod(name, parent, methodName)))
  }

  /** P starts under the first version and stops before it asks for A. */
  lemma OuterStarts(s: State) returns (actions: seq<Action>)
    requires s == State(OLDER, 0, map[], 0, [Idle])
    ensures Trace(s, actions, Reading(s, [Waits("A", "P", "mp")])) && LiveEditsOnly(actions)
    ensures Stacked([Waits("A", "P", "mp")])
  {
    hide Legal, Laid, ByName;
    PairNoCycles("P", "mp", "A", "ma");
    PairByName("P", "mp", "A", "ma", "P");
    PopulateRegistered(OLDER, "P", "A", "mp");
    TraceBegin(s, "P", Registered("P", "A", "mp"), WithMethod("P", "A", "mp"));
    actions := [Begin(0, "P")] + FOUR;
  }

  /** The edit is written and invalidated under it. */
  lemma EditHappens(s: State, stack: seq<Frame>, t: State) returns (actions: seq<Action>)
    requires s == State(OLDER, 0, map[], 0, [Running(stack)]) && t == State(NEWER, 1, map[], 0, [Running(stack)])
    ensures Trace(s, actions, t) && LiveEditsOnly(actions)
  {
    PairNoCycles("P", "mp", "A", "ma");
    PairNoCycles("A", "ma", "P", "mp");
    SwapEdits();
    var half := State(NEWER, 0, map[], 1, [Running(stack)]);
    TraceOne(s, Write(SWAP), half);
    TraceOne(half, Invalidate, t);
    TraceThen(s, [Write(SWAP)], half, [Invalidate], t);
    actions := [Write(SWAP)] + [Invalidate];
  }

  lemma WaitsAsks(parent: string, name: string, methodName: string)
    requires parent != ""
    ensures Waits(parent, name, methodName).phase.Asking?
    ensures Waits(parent, name, methodName).phase.own.extendsComponent == parent
  {
  }

  /** An activation calls a name nobody resolves and nobody cached. */
  lemma TracePush(s: State, outer: Frame, name: string)
    requires NoCycles(s.docs) && Stacked([outer]) && outer.phase.Asking? && outer.phase.own.extendsComponent == name
    requires outer.name != name && name !in s.cache && outer.epoch <= s.epoch
    ensures Trace(Reading(s, [outer]), [Advance(0)], Reading(s, [outer] + [Frame(name, s.epoch, Fetching)]))
    ensures Stacked([outer] + [Frame(name, s.epoch, Fetching)])
  {
    var entered := Frame(name, s.epoch, Fetching);
    assert Resolving([outer]) == {outer.name};
    PushTop([outer], entered);
    TraceOne(Reading(s, [outer]), Advance(0), Reading(s, [outer] + [entered]));
  }

  /** A starts under the second version, and stops before it asks for P. */
  lemma InnerStarts(s: State, outer: Frame) returns (actions: seq<Action>)
    requires s == State(NEWER, 1, map[], 0, [Running([outer])])
    requires outer == Waits("A", "P", "mp") && Stacked([outer])
    ensures Trace(s, actions, Reading(s, [outer] + [Waits("P", "A", "ma")])) && LiveEditsOnly(actions)
    ensures Stacked([outer] + [Waits("P", "A", "ma")])
  {
    hide WithMethod, Laid, Pair;
    PairNoCycles("A", "ma", "P", "mp");
    WaitsAsks("A", "P", "mp");
    TracePush(s, outer, "A");
    InnerLaid(s, outer);
    TraceThen(s, [Advance(0)], Reading(s, [outer] + [Frame("A", 1, Fetching)]), FOUR,
              Reading(s, [outer] + [Waits("P", "A", "ma")]));
    actions := [Advance(0)] + FOUR;
  }

  lemma InnerLaid(s: State, outer: Frame)
    requires s.docs == NEWER && Stacked([outer] + [Frame("A", 1, Fetching)])
    ensures Trace(Reading(s, [outer] + [Frame("A", 1, Fetching)]), FOUR, Reading(s, [outer] + [Waits("P", "A", "ma")]))
    ensures Stacked([outer] + [Waits("P", "A", "ma")])
  {
    PairNoCycles("A", "ma", "P", "mp");
    PairByName("A", "ma", "P", "mp", "A");
    PopulateRegistered(NEWER, "A", "P", "ma");
    TraceSingle(s, [outer], "A", 1, Registered("A", "P", "ma"), WithMethod("A", "P", "ma"));
  }

  /** P is still being resolved, so A goes on without it, and publishes under the current epoch. */
  lemma InnerPublishes(s: State) returns (actions: seq<Action>, t: State)
    requires s == State(NEWER, 1, map[], 0, [Running([Waits("A", "P", "mp")] + [Waits("P", "A", "ma")])])
    requires Stacked([Waits("A", "P", "mp")] + [Waits("P", "A", "ma")])
    ensures Trace(s, actions, t) && LiveEditsOnly(actions)
    ensures t.docs == NEWER && t.pending == 0 && t.cache == map["A" := Truncated("A", "P", "ma")]
  {
    hide Laid, Enrich, Resume, Truncated, Trace;
    PairNoCycles("A", "ma", "P", "mp");
    var outer, asking := Waits("A", "P", "mp"), Waits("P", "A", "ma");
    WaitsAsks("P", "A", "ma");
    TraceCut(s, outer, asking);
    TruncatedIsCut();
    t := TracePublish(s, [outer], Resume(asking, None));
    TraceThen(s, [Advance(0)], Reading(s, [outer] + [Resume(asking, None)]), [Advance(0)] + [Advance(0)], t);
    actions := [Advance(0)] + ([Advance(0)] + [Advance(0)]);
  }

  lemma TruncatedIsCut()
    ensures var f := Resume(Waits("P", "A", "ma"), None);
            WellFormed(f) && f.name == "A" && f.epoch == 1 && f.phase.Enriching?
            && Enrich(NO_TYPES, f.phase.merged) == Truncated("A", "P", "ma")
  {
  }

  lemma TraceFourParts(s: State, a: seq<Action>, t: State, b: seq<Action>, u: State, c: seq<Action>, v: State,
                       d: seq<Action>, w: State)
    requires Trace(s, a, t) && Trace(t, b, u) && Trace(u, c, v) && Trace(v, d, w)
    ensures Trace(s, a + b + c + d, w)
  {
    TraceThen(s, a, t, b, u);
    TraceThen(s, a + b, u, c, v);
    TraceThen(s, a + b + c, v, d, w);
  }

  lemma PublishedIsWrong(t: State)
    requires t.docs == NEWER && t.cache == map["A" := Truncated("A", "P", "ma")]
    ensures !Consistent(t.docs, t.cache)
  {
    PairEffective("A", "ma", "P", "mp");
    TruncatedMethods("A", "P", "ma");
    PairNoCycles("A", "ma", "P", "mp");
    assert "A" in t.cache && Acyclic(t.docs, "A");
  }

  /** A run of one reader and one live edit, over documents that never hold a cycle of
      `extends`, after which the cache is wrong although no edit is half done: an activation
      with an older epoch makes a current one drop its parent. */
  lemma StaleFrameWitness() returns (s: State, actions: seq<Action>)
    ensures Initial(s) && Legal(s, actions) && LiveEditsOnly(actions) && AlwaysAcyclic(s, actions)
    ensures After(s, actions).pending == 0
    ensures !Consistent(After(s, actions).docs, After(s, actions).cache)
  {
    hide Truncated, Trace, Waits, Consistent;
    s := State(OLDER, 0, map[], 0, [Idle]);
    var outer := Waits("A", "P", "mp");
    var edited := State(NEWER, 1, map[], 0, [Running([outer])]);
    var a := OuterStarts(s);
    var b := EditHappens(Reading(s, [outer]), [outer], edited);
    var c := InnerStarts(edited, outer);
    var both := Reading(edited, [outer] + [Waits("P", "A", "ma")]);
    var d, t := InnerPublishes(both);
    TraceFourParts(s, a, Reading(s, [outer]), b, edited, c, both, d, t);
    actions := a + b + c + d;
    PublishedIsWrong(t);
  }

  // ---- Indexing writes after it invalidates.

  const STORED_OLD := Stored([Registered("A", "", "old")])
  const STORED_NEW := Stored([Registered("A", "", "new")])

  lemma StoredNoCycles(methodName: string)
    ensures NoCycles(Stored([Registered("A", "", methodName)]))
  {
    var docs := Stored([Registered("A", "", methodName)]);
    forall n, p | p in Parents(docs, n) ensures false {
      StoredByName(Registered("A", "", methodName), n);
    }
    forall n ensures Acyclic(docs, n) {
      RankedIsAcyclic(docs, (_: string) => 0, n);
    }
  }

  /** A reader that reads between the invalidation and the write publishes the old documents. */
  lemma ReadsAlone(s: State, name: string, methodName: string) returns (actions: seq<Action>, t: State)
    requires s.readers == [Idle] && s.cache == map[] && NoCycles(s.docs) && name != "" && methodName != ""
    requires s.docs.Types() == NO_TYPES && ByName(s.docs, name) == [Registered(name, "", methodName)]
    ensures Trace(s, actions, t) && OnlyReads(actions)
    ensures t.docs == s.docs && t.pending == s.pending && name in t.cache && t.cache[name].methods == [methodName]
  {
    var p := WithMethod(name, "", methodName);
    PopulateRegistered(s.docs, name, "", methodName);
    TraceBegin(s, name, Registered(name, "", methodName), p);
    var f := Frame(name, s.epoch, Laid(name, p));
    TruncatedMethods(name, "", methodName);
    t := PublishesAlone(s, f, p);
    ReaderActions(name);
    actions := ([Begin(0, name)] + FOUR) + ([Advance(0)] + [Advance(0)]);
    TraceThen(s, [Begin(0, name)] + FOUR, Reading(s, [f]), [Advance(0)] + [Advance(0)], t);
  }

  predicate OnlyReads(actions: seq<Action>) {
    forall a :: a in actions ==> a.Begin? || a.Advance?
  }

  lemma ReaderActions(name: string)
    ensures OnlyReads(([Begin(0, name)] + FOUR) + ([Advance(0)] + [Advance(0)]))
  {
  }

  lemma PublishesAlone(s: State, f: Frame, p: Component) returns (t: State)
    requires NoCycles(s.docs) && s.cache == map[] && p.name != "" && p.extendsComponent == ""
    requires f == Frame(p.name, s.epoch, Laid(p.name, p)) && Stacked([f])
    ensures Trace(Reading(s, [f]), [Advance(0)] + [Advance(0)], t)
    ensures t.docs == s.docs && t.pending == s.pending
    ensures t.cache == map[p.name := Enrich(s.docs.Types(), OverlayComponents(Blank(p.name), OverlayComponents(Blank(p.name), p)))]
  {
    LaidAlone(p.name, p);
    assert [] + [f] == [f];
    t := TracePublish(s, [], f);
  }

  lemma LaidAlone(name: string, p: Component)
    requires p.extendsComponent == "" && p.name == name
    ensures Laid(name, p) == Enriching(OverlayComponents(Blank(name), OverlayComponents(Blank(name), p)))
  {
    assert [p][1..] == [];
  }

  lemma StoredNewEffective()
    ensures Effective(STORED_NEW, "A").Some? && Effective(STORED_NEW, "A").value.methods == ["new"]
  {
    var c, p := Registered("A", "", "new"), WithMethod("A", "", "new");
    StoredNoCycles("new");
    StoredByName(c, "A");
    PopulateRegistered(STORED_NEW, "A", "", "new");
    SingleEffective(STORED_NEW, "A", c, p);
    TruncatedMethods("A", "", "new");
  }

  predicate NoLiveEdit(actions: seq<Action>) {
    forall a :: a in actions ==> !a.Write? && !a.Invalidate?
  }

  lemma NoLiveEditJoins(a: seq<Action>, b: seq<Action>)
    requires NoLiveEdit(a) && NoLiveEdit(b)
    ensures NoLiveEdit(a + b)
  {
  }

  lemma IndexInvalidates(s: State) returns (actions: seq<Action>, t: State)
    requires s == State(STORED_OLD, 0, map[], 0, [Idle])
    ensures Trace(s, actions, t) && NoLiveEdit(actions) && t == State(STORED_OLD, 1, map[], 0, [Idle])
  {
    StoredNoCycles("old");
    t := State(STORED_OLD, 1, map[], 0, [Idle]);
    TraceOne(s, IndexInvalidate, t);
    actions := [IndexInvalidate];
  }

  lemma ReadsOld(s: State) returns (actions: seq<Action>, t: State)
    requires s == State(STORED_OLD, 1, map[], 0, [Idle])
    ensures Trace(s, actions, t) && NoLiveEdit(actions)
    ensures t.docs == STORED_OLD && t.pending == 0 && "A" in t.cache && t.cache["A"].methods == ["old"]
  {
    hide ByName;
    StoredNoCycles("old");
    StoredByName(Registered("A", "", "old"), "A");
    actions, t := ReadsAlone(s, "A", "old");
  }

  /** Invalidating first and writing afterwards, as the persistent indexing does, leaves a
      stale entry under the current epoch, with no live edit in sight. */
  lemma InvalidateThenWriteWitness() returns (s: State, actions: seq<Action>)
    ensures Initial(s) && Legal(s, actions) && AlwaysAcyclic(s, actions) && After(s, actions).pending == 0
    ensures NoLiveEdit(actions)
    ensures !Consistent(After(s, actions).docs, After(s, actions).cache)
  {
    s := State(STORED_OLD, 0, map[], 0, [Idle]);
    var before, invalidated := IndexInvalidates(s);
    var between, t := ReadsOld(invalidated);
    var after, u := WritesAfter(t);
    TraceThen(s, before, invalidated, between, t);
    TraceThen(s, before + between, t, after, u);
    actions := before + between + after;
    NoLiveEditJoins(before, between);
    NoLiveEditJoins(before + between, after);
  }

  lemma WritesAfter(t: State) returns (actions: seq<Action>, u: State)
    requires t.docs == STORED_OLD && t.pending == 0 && "A" in t.cache && t.cache["A"].methods == ["old"]
    ensures Trace(t, actions, u) && u.pending == 0 && !Consistent(u.docs, u.cache)
    ensures NoLiveEdit(actions)
  {
    hide Effective;
    var write := IndexWrite(STORED_NEW.components, [], [], map[]);
    StoredNoCycles("old");
    StoredNoCycles("new");
    u := Next(t, write);
    TraceOne(t, write, u);
    actions := [write];
    StoredNewEffective();
    assert "A" in u.cache && Acyclic(STORED_NEW, "A");
  }

  // ---- A cycle of `extends`.

  /** Two components that extend each other. */
  const CYCLE := Live([Registered("A", "B", "ma"), Registered("B", "A", "mb")])

  lemma CycleByName()
    ensures ByName(CYCLE, "A") == [Registered("A", "B", "ma")] && ByName(CYCLE, "B") == [Registered("B", "A", "mb")]
  {
    hide ByName;
    var x, y := Registered("A", "B", "ma"), Registered("B", "A", "mb");
    LiveByName([x, y], "A");
    LiveByName([x, y], "B");
    SelectTwo(x, y, NamedOrAll("A"));
    SelectTwo(x, y, NamedOrAll("B"));
  }

  /** A query of an uncached name with one registration. */
  lemma QuerySingle(docs: Documents, cache: map<string, Component>, name: string, resolving: set<string>, p: Component,
                    merged: Component, filled: map<string, Component>)
    requires name != "" && name !in resolving && name !in cache && Ordered(docs, name) == [p]
    requires QueryParents(docs, cache, resolving + {name}, [p], Blank(name)) == (merged, filled)
    ensures Query(docs, cache, name, resolving)
         == (Some(Enrich(docs.Types(), merged)), filled[name := Enrich(docs.Types(), merged)])
  {
  }

  /** The innermost query of a cycle is cut and memoised without its parent. */
  lemma CutQuery(docs: Documents, inner: string, outer: string, methodName: string)
    requires inner != "" && outer != "" && inner != outer && docs.Types() == NO_TYPES
    requires ByName(docs, inner) == [Registered(inner, outer, methodName)]
    ensures Query(docs, map[], inner, {outer})
         == (Some(Truncated(inner, outer, methodName)), map[inner := Truncated(inner, outer, methodName)])
  {
    hide Populate, OverlayComponents;
    var c, p := Registered(inner, outer, methodName), WithMethod(inner, outer, methodName);
    PopulateRegistered(docs, inner, outer, methodName);
    OrderedOne(docs, inner, c, p);
    CutParents(docs, inner, outer, p);
    QuerySingle(docs, map[], inner, {outer}, p, OverlayComponents(Blank(inner), OverlayComponents(Blank(p.name), p)), map[]);
  }

  lemma CutParents(docs: Documents, inner: string, outer: string, p: Component)
    requires p.mixins == [] && p.extendsComponent == outer && outer != ""
    ensures QueryParents(docs, map[], {outer} + {inner}, [p], Blank(inner))
         == (OverlayComponents(Blank(inner), OverlayComponents(Blank(p.name), p)), map[])
  {
    OwnWithoutMixins(docs, p);
    var own := OverlayComponents(Blank(p.name), p);
    assert own.extendsComponent == outer && outer in {outer} + {inner};
    assert [p][1..] == [];
  }

  /** The outermost query of a cycle inherits from the truncated inner one, and leaves it memoised. */
  lemma OuterQuery(docs: Documents, outer: string, outerMethod: string, inner: string, innerMethod: string)
    requires inner != "" && outer != "" && inner != outer && docs.Types() == NO_TYPES
    requires outerMethod != "" && innerMethod != "" && outerMethod != innerMethod
    requires ByName(docs, inner) == [Registered(inner, outer, innerMethod)]
    requires ByName(docs, outer) == [Registered(outer, inner, outerMethod)]
    ensures var (result, cache) := Query(docs, map[], outer, {});
            result.Some? && result.value.methods == [innerMethod, outerMethod]
            && inner in cache && cache[inner] == Truncated(inner, outer, innerMethod)
  {
    hide Merged, OverlayComponents;
    var c, p := Registered(outer, inner, outerMethod), WithMethod(outer, inner, outerMethod);
    PopulateRegistered(docs, outer, inner, outerMethod);
    OrderedOne(docs, outer, c, p);
    var parent := Truncated(inner, outer, innerMethod);
    CutQuery(docs, inner, outer, innerMethod);
    TruncatedMethods(inner, outer, innerMethod);
    OuterParents(docs, outer, inner, p, parent);
    QuerySingle(docs, map[], outer, {}, p,
                OverlayComponents(Blank(outer), WithParent(OverlayComponents(Blank(p.name), p), Some(parent))),
                map[inner := parent]);
    ChildMethods(docs, outer, p, parent, outerMethod, innerMethod);
  }

  lemma OuterParents(docs: Documents, outer: string, inner: string, p: Component, parent: Component)
    requires p.mixins == [] && p.extendsComponent == inner && inner != ""
    requires Query(docs, map[], inner, {outer}) == (Some(parent), map[inner := parent])
    ensures QueryParents(docs, map[], {} + {outer}, [p], Blank(outer))
         == (OverlayComponents(Blank(outer), WithParent(OverlayComponents(Blank(p.name), p), Some(parent))),
             map[inner := parent])
  {
    hide Query;
    OwnWithoutMixins(docs, p);
    assert {} + {outer} == {outer} && [p][1..] == [];
  }

  lemma MemoisedFirst(docs: Documents, first: string, name: string)
    requires name != "" && name in Query(docs, map[], first, {}).1
    ensures Query(docs, CacheAfter(docs, [first]), name, {}).0 == Some(Query(docs, map[], first, {}).1[name])
    ensures Query(docs, CacheAfter(docs, []), name, {}) == Query(docs, map[], name, {})
  {
    assert [first][..0] == [];
    assert CacheAfter(docs, [first]) == Query(docs, CacheAfter(docs, []), first, {}).1;
  }

  /** With a cycle of `extends` the memo is not the recursion: what a name's query answers
      depends on which name was queried before it. */
  lemma CycleWitness()
    ensures Query(CYCLE, CacheAfter(CYCLE, []), "B", {}).0 != Query(CYCLE, CacheAfter(CYCLE, ["A"]), "B", {}).0
    ensures !Acyclic(CYCLE, "A") && !Acyclic(CYCLE, "B")
  {
    CycleByName();
    OuterQuery(CYCLE, "A", "ma", "B", "mb");
    OuterQuery(CYCLE, "B", "mb", "A", "ma");
    TruncatedMethods("B", "A", "mb");
    MemoisedFirst(CYCLE, "A", "B");
    CycleIsUnbounded();
  }

  lemma CycleIsUnbounded()
    ensures !Acyclic(CYCLE, "A") && !Acyclic(CYCLE, "B")
  {
    CycleByName();
    assert Registered("A", "B", "ma") in ByName(CYCLE, "A") && Registered("B", "A", "mb") in ByName(CYCLE, "B");
    if Acyclic(CYCLE, "A") {
      ParentLower(CYCLE, "A", "B");
      ParentLower(CYCLE, "B", "A");
    }
    if Acyclic(CYCLE, "B") {
      ParentLower(CYCLE, "B", "A");
      ParentLower(CYCLE, "A", "B");
    }
  }
}
