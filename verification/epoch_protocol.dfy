/** The epoch protocol that guards the effective-component cache
    (internal/admin/indexer_effective.go:165-239, indexer_components.go:635-647): readers
    snapshot the epoch and the cache, read the documents piecemeal, and publish if the epoch
    is unchanged; an editor writes the document maps and then invalidates. */
module EpochProtocol {
  import opened AdminModel
  import opened ComponentOverlay
  import opened LiveView
  import opened MemberInference
  import opened EffectiveComponent
  import opened StableSort

  // ---- Readers.

  /** Where one effectiveComponent activation stands. */
  datatype Phase =
    | Fetching
    | Populating(read: seq<Component>, at: nat)
    | Mixing(rest: seq<Component>, merged: Component, tasks: seq<MixinTask>, seen: set<string>, mixed: Component)
    | Asking(rest: seq<Component>, merged: Component, own: Component)
    | Enriching(merged: Component)
    | Publishing(value: Component)

  datatype Frame = Frame(name: string, epoch: nat, phase: Phase)

  /** A GetEffectiveComponent call: its activations, outermost first. Their names are the
      `resolving` map they share. */
  datatype Reader = Idle | Running(stack: seq<Frame>) | Answered(name: string, epoch: nat, answer: Option<Component>)

  function Resolving(stack: seq<Frame>): set<string> {
    set f | f in stack :: f.name
  }

  /** The overlay loop moves on to the next registration, or leaves. */
  function NextComponent(rest: seq<Component>, merged: Component): Phase {
    if rest == [] then Enriching(merged)
    else Mixing(rest, merged, EnterAll(rest[0].mixins), {}, Blank(rest[0].name))
  }

  /** One step of applyMixin. */
  ghost function MixStep(docs: Documents, phase: Phase): Phase
    requires phase.Mixing? && phase.tasks != [] && phase.rest != []
  {
    var Mixing(rest, merged, tasks, seen, mixed) := phase;
    match tasks[0]
    case LayOn(d) =>
      Mixing(rest, merged, tasks[1..], seen, OverlayComponents(mixed, ApplyDefinition(Blank(rest[0].name), d)))
    case Enter(m) =>
      if m == "" || m in seen then Mixing(rest, merged, tasks[1..], seen, mixed)
      else if GetMixins(docs, m) == [] then
        Mixing(rest, merged, tasks[1..], seen + {m}, mixed.(openRuntimeMembers := true))
      else Mixing(rest, merged, Visit(GetMixins(docs, m)) + tasks[1..], seen + {m}, mixed)
  }

  /** All mixins are laid: the registration itself goes on top, then its parent is asked for. */
  function MixDone(phase: Phase): Phase
    requires phase.Mixing? && phase.rest != []
  {
    var own := OverlayComponents(phase.mixed, phase.rest[0]);
    if own.extendsComponent != "" then Asking(phase.rest[1..], phase.merged, own)
    else NextComponent(phase.rest[1..], OverlayComponents(phase.merged, own))
  }

  /** A step that stays inside the activation. */
  ghost function Local(docs: Documents, f: Frame): Phase
    requires WellFormed(f) && !f.phase.Asking? && !f.phase.Publishing?
  {
    match f.phase
    case Fetching => Populating(ByName(docs, f.name), 0)
    case Populating(read, at) =>
      if at < |read| then Populating(read[at := Populate(docs, read[at])], at + 1)
      else NextComponent(SortStable(read, RegistrationLess), Blank(f.name))
    case Mixing(_, _, tasks, _, _) => if tasks == [] then MixDone(f.phase) else MixStep(docs, f.phase)
    case Enriching(merged) => Publishing(Enrich(docs.Types(), merged))
  }

  function Resume(f: Frame, value: Option<Component>): Frame
    requires f.phase.Asking?
  {
    f.(phase := NextComponent(f.phase.rest, OverlayComponents(f.phase.merged, WithParent(f.phase.own, value))))
  }

  /** The innermost activation returns to its caller, or answers the whole call. */
  function Return(stack: seq<Frame>, value: Option<Component>): Reader
    requires Stacked(stack)
  {
    var below, top := stack[..|stack| - 1], stack[|stack| - 1];
    if below == [] then Answered(top.name, top.epoch, value)
    else
      var caller := below[|below| - 1];
      assert Linked(stack[|stack| - 2], stack[|stack| - 1]);
      Running(below[..|below| - 1] + [Resume(caller, value)])
  }

  predicate WellFormed(f: Frame) {
    && f.name != ""
    && (f.phase.Populating? ==> f.phase.at <= |f.phase.read|)
    && (f.phase.Mixing? ==> f.phase.rest != [] && f.phase.mixed.extendsComponent == "")
    && (f.phase.Asking? ==> f.phase.own.extendsComponent != "")
  }

  /** A caller waits for the name its callee computes, and took its epoch no later. */
  predicate Linked(caller: Frame, callee: Frame) {
    caller.phase.Asking? && caller.phase.own.extendsComponent == callee.name && caller.epoch <= callee.epoch
  }

  predicate Stacked(stack: seq<Frame>) {
    && stack != []
    && (forall i :: 0 <= i < |stack| ==> WellFormed(stack[i]))
    && (forall i, j :: 0 <= i < j == i + 1 < |stack| ==> Linked(stack[i], stack[j]))
  }

  // ---- The system.

  datatype State = State(docs: Documents, epoch: nat, cache: map<string, Component>, pending: nat, readers: seq<Reader>)

  /** Editors write and invalidate in two steps; indexing invalidates and writes in two steps. */
  datatype Action =
    | Begin(reader: nat, name: string)
    | Advance(reader: nat)
    | Write(edit: Edit)
    | Invalidate
    | IndexInvalidate
    | IndexWrite(components: seq<Component>, definitions: seq<StoredDefinition>, mixins: seq<Mixin>, typeFiles: map<string, string>)

  predicate Enabled(s: State, a: Action) {
    match a
    case Begin(i, _) => i < |s.readers| && !s.readers[i].Running?
    case Advance(i) => i < |s.readers| && s.readers[i].Running? && Stacked(s.readers[i].stack)
    case Invalidate => s.pending > 0
    case _ => true
  }

  /** An effectiveComponent call: the guard, then the epoch and cache snapshot under one lock. */
  function Call(s: State, stack: seq<Frame>, name: string): (Option<Frame>, Option<Component>) {
    if name == "" || name in Resolving(stack) then (None, None)
    else if name in s.cache then (None, Some(s.cache[name]))
    else (Some(Frame(name, s.epoch, Fetching)), None)
  }

  ghost function AdvanceReader(s: State, stack: seq<Frame>): (Reader, map<string, Component>)
    requires Stacked(stack)
  {
    var below, top := stack[..|stack| - 1], stack[|stack| - 1];
    match top.phase
    case Asking(_, _, own) =>
      var (entered, value) := Call(s, stack, own.extendsComponent);
      if entered.Some? then (Running(stack + [entered.value]), s.cache)
      else (Running(below + [Resume(top, value)]), s.cache)
    case Publishing(value) =>
      (Return(stack, Some(value)), if s.epoch == top.epoch then s.cache[top.name := value] else s.cache)
    case _ =>
      if top.phase.Fetching? && ByName(s.docs, top.name) == [] then (Return(stack, None), s.cache)
      else (Running(below + [top.(phase := Local(s.docs, top))]), s.cache)
  }

  ghost function Next(s: State, a: Action): State
    requires Enabled(s, a)
  {
    match a
    case Begin(i, name) =>
      var (entered, value) := Call(s, [], name);
      s.(readers := s.readers[i := if entered.Some? then Running([entered.value]) else Answered(name, s.epoch, value)])
    case Advance(i) =>
      var (reader, cache) := AdvanceReader(s, s.readers[i].stack);
      s.(readers := s.readers[i := reader], cache := cache)
    case Write(edit) => if Ignored(edit) then s else s.(docs := ApplyEdit(s.docs, edit), pending := s.pending + 1)
    case Invalidate => s.(cache := map[], epoch := s.epoch + 1, pending := s.pending - 1)
    case IndexInvalidate => s.(cache := map[], epoch := s.epoch + 1)
    case IndexWrite(components, definitions, mixins, typeFiles) =>
      s.(docs := s.docs.(components := components, definitions := definitions, mixins := mixins, typeFiles := typeFiles))
  }

  predicate Initial(s: State) {
    s.cache == map[] && s.pending == 0 && forall r :: r in s.readers ==> r.Idle?
  }

  /** A reader about to be cut off at a parent that an activation with an older epoch resolves. */
  predicate StaleCut(stack: seq<Frame>) {
    && stack != [] && stack[|stack| - 1].phase.Asking?
    && exists k :: 0 <= k < |stack| && stack[k].name == stack[|stack| - 1].phase.own.extendsComponent
                   && stack[k].epoch < stack[|stack| - 1].epoch
  }

  /** Only an activation of the current epoch can publish what the cut leaves of its value. */
  predicate CutsStale(s: State, a: Action) {
    && a.Advance? && a.reader < |s.readers| && s.readers[a.reader].Running?
    && StaleCut(s.readers[a.reader].stack)
    && var stack := s.readers[a.reader].stack; stack[|stack| - 1].epoch == s.epoch
  }

  /** Runs: every action is enabled when its turn comes. */
  ghost predicate Legal(s: State, actions: seq<Action>)
    decreases |actions|
  {
    actions != [] ==> Enabled(s, actions[0]) && Legal(Next(s, actions[0]), actions[1..])
  }

  predicate Renews(a: Action) {
    a.Invalidate? || a.IndexInvalidate?
  }

  predicate Renewed(actions: seq<Action>) {
    exists i :: 0 <= i < |actions| && Renews(actions[i])
  }

  /** Steps that can leave something wrong under the current epoch. */
  predicate Disturbs(s: State, a: Action) {
    a.IndexWrite? || CutsStale(s, a)
  }

  /** Whatever disturbs the cache is followed by an invalidation, from wherever it comes. */
  ghost predicate Settles(s: State, actions: seq<Action>)
    requires Legal(s, actions)
    decreases |actions|
  {
    actions != [] ==>
      && (Disturbs(s, actions[0]) ==> Renewed(actions[1..]))
      && Settles(Next(s, actions[0]), actions[1..])
  }

  /** Every write of the indexing is followed by an invalidation. */
  predicate WritesRenewed(actions: seq<Action>) {
    actions != [] ==> (actions[0].IndexWrite? ==> Renewed(actions[1..])) && WritesRenewed(actions[1..])
  }

  ghost function After(s: State, actions: seq<Action>): State
    requires Legal(s, actions)
    decreases |actions|
  {
    if actions == [] then s else After(Next(s, actions[0]), actions[1..])
  }

  // ---- What an activation would return if nothing changed any more.

  ghost function ParentOf(docs: Documents, c: Component): Option<Component> {
    if c.extendsComponent == "" then None else Effective(docs, c.extendsComponent)
  }

  ghost function Folded(docs: Documents, rest: seq<Component>, merged: Component): Component {
    if rest == [] then merged
    else Folded(docs, rest[1..], OverlayComponents(merged, WithParent(Own(docs, rest[0]), ParentOf(docs, rest[0]))))
  }

  ghost function Enriched(docs: Documents, rest: seq<Component>, merged: Component): Option<Component> {
    Some(Enrich(docs.Types(), Folded(docs, rest, merged)))
  }

  ghost function Outcome(docs: Documents, f: Frame): Option<Component>
    requires WellFormed(f)
  {
    match f.phase
    case Fetching =>
      if ByName(docs, f.name) == [] then None else Enriched(docs, Ordered(docs, f.name), Blank(f.name))
    case Populating(read, at) =>
      Enriched(docs, SortStable(read[..at] + PopulateAll(docs, read[at..]), RegistrationLess), Blank(f.name))
    case Mixing(rest, merged, tasks, seen, mixed) =>
      var own := OverlayComponents(RunMixins(docs, rest[0].name, tasks, seen, mixed), rest[0]);
      Enriched(docs, rest[1..], OverlayComponents(merged, WithParent(own, ParentOf(docs, rest[0]))))
    case Asking(rest, merged, own) =>
      Enriched(docs, rest, OverlayComponents(merged, WithParent(own, ParentOf(docs, own))))
    case Enriching(merged) => Some(Enrich(docs.Types(), merged))
    case Publishing(value) => Some(value)
  }

  lemma {:induction false} FoldedIsMerge(docs: Documents, h: nat, rest: seq<Component>, merged: Component)
    requires Below(docs, rest, h)
    ensures MergeFrom(docs, h, rest, merged) == Folded(docs, rest, merged)
    decreases |rest|
  {
    if rest != [] {
      var c := rest[0];
      assert c in rest;
      FoldedIsMerge(docs, h, rest[1..], OverlayComponents(merged, WithParent(Own(docs, c), ParentOf(docs, c))));
    }
  }

  lemma OrderedEmpty(docs: Documents, name: string)
    ensures Ordered(docs, name) == [] <==> ByName(docs, name) == []
  {
    var populated := PopulateAll(docs, ByName(docs, name));
    if populated != [] {
      SortKeeps(populated, RegistrationLess, populated[0]);
    }
  }

  lemma EffectiveFolds(docs: Documents, name: string)
    requires name != "" && Acyclic(docs, name)
    ensures Effective(docs, name)
         == if ByName(docs, name) == [] then None else Enriched(docs, Ordered(docs, name), Blank(name))
  {
    OrderedEmpty(docs, name);
    OrderedBelow(docs, name);
    FoldedIsMerge(docs, Height(docs, name), Ordered(docs, name), Blank(name));
  }

  // ---- Activations that have seen only the current documents.

  /** The registrations an activation has still to lay. */
  function Waiting(f: Frame): seq<Component> {
    match f.phase
    case Populating(read, _) => read
    case Mixing(rest, _, _, _, _) => rest
    case Asking(rest, _, own) => [own] + rest
    case _ => []
  }

  ghost predicate Rooted(docs: Documents, f: Frame) {
    forall c :: c in Waiting(f) && c.extendsComponent != "" ==> c.extendsComponent in Parents(docs, f.name)
  }

  /** On its way to the effective component of its name. */
  ghost predicate Good(docs: Documents, f: Frame) {
    && WellFormed(f)
    && Rooted(docs, f)
    && (Acyclic(docs, f.name) ==> Outcome(docs, f) == Effective(docs, f.name))
  }

  lemma EnteredIsGood(docs: Documents, name: string, epoch: nat)
    requires name != ""
    ensures Good(docs, Frame(name, epoch, Fetching))
  {
    if Acyclic(docs, name) {
      EffectiveFolds(docs, name);
    }
  }

  /** What remains of the loop yields the fold of what remains. */
  lemma NextComponentOutcome(docs: Documents, f: Frame, rest: seq<Component>, merged: Component)
    requires f.name != "" && f.phase == NextComponent(rest, merged)
    ensures WellFormed(f) && Waiting(f) == rest && Outcome(docs, f) == Enriched(docs, rest, merged)
  {
    if rest != [] {
      var c := rest[0];
      assert Own(docs, c) == OverlayComponents(RunMixins(docs, c.name, EnterAll(c.mixins), {}, Blank(c.name)), c);
    }
  }

  lemma PopulateKeeps(docs: Documents, c: Component)
    ensures Populate(docs, c).extendsComponent == c.extendsComponent
  {
  }

  lemma FetchedIsGood(docs: Documents, f: Frame)
    requires Good(docs, f) && f.phase.Fetching? && ByName(docs, f.name) != []
    ensures Good(docs, f.(phase := Local(docs, f)))
  {
    var read := ByName(docs, f.name);
    assert read[0..] == read;
    assert read[..0] + PopulateAll(docs, read) == PopulateAll(docs, read);
  }

  lemma PopulatedIsGood(docs: Documents, f: Frame)
    requires Good(docs, f) && f.phase.Populating? && f.phase.at < |f.phase.read|
    ensures Good(docs, f.(phase := Local(docs, f)))
  {
    var read, at := f.phase.read, f.phase.at;
    var next := read[at := Populate(docs, read[at])];
    PopulateKeeps(docs, read[at]);
    assert read[..at] + PopulateAll(docs, read[at..]) == next[..at + 1] + PopulateAll(docs, next[at + 1..]);
    forall c | c in next && c.extendsComponent != "" ensures c.extendsComponent in Parents(docs, f.name) {
      var i :| 0 <= i < |next| && next[i] == c;
      assert read[i] in Waiting(f) && read[i].extendsComponent == c.extendsComponent;
    }
  }

  lemma SortedIsGood(docs: Documents, f: Frame)
    requires Good(docs, f) && f.phase.Populating? && f.phase.at == |f.phase.read|
    ensures Good(docs, f.(phase := Local(docs, f)))
  {
    var read := f.phase.read;
    var sorted := SortStable(read, RegistrationLess);
    assert read[..|read|] + PopulateAll(docs, read[|read|..]) == read;
    NextComponentOutcome(docs, f.(phase := Local(docs, f)), sorted, Blank(f.name));
    forall c | c in sorted && c.extendsComponent != "" ensures c.extendsComponent in Parents(docs, f.name) {
      SortKeeps(read, RegistrationLess, c);
    }
  }

  /** A mixin step leaves what the mixins will come to unchanged. */
  lemma MixStepKeeps(docs: Documents, phase: Phase)
    requires phase.Mixing? && phase.tasks != [] && phase.rest != []
    ensures var next := MixStep(docs, phase);
            next.Mixing? && next.mixed.extendsComponent == phase.mixed.extendsComponent && next.rest == phase.rest && next.merged == phase.merged
            && RunMixins(docs, phase.rest[0].name, next.tasks, next.seen, next.mixed)
            == RunMixins(docs, phase.rest[0].name, phase.tasks, phase.seen, phase.mixed)
  {
  }

  lemma MixedIsGood(docs: Documents, f: Frame)
    requires Good(docs, f) && f.phase.Mixing? && f.phase.tasks != []
    ensures Good(docs, f.(phase := Local(docs, f)))
  {
    MixStepKeeps(docs, f.phase);
  }

  lemma OwnExtendsAsRegistered(mixed: Component, c: Component)
    requires mixed.extendsComponent == ""
    ensures OverlayComponents(mixed, c).extendsComponent == c.extendsComponent
  {
  }

  lemma LaidIsGood(docs: Documents, f: Frame)
    requires Good(docs, f) && f.phase.Mixing? && f.phase.tasks == []
    ensures Good(docs, f.(phase := Local(docs, f)))
  {
    hide OverlayComponents, ByName, Enrich;
    var c := f.phase.rest[0];
    var own := OverlayComponents(f.phase.mixed, c);
    var rest, merged := f.phase.rest[1..], f.phase.merged;
    var next := f.(phase := Local(docs, f));
    OwnExtendsAsRegistered(f.phase.mixed, c);
    LaidOutcome(docs, f);
    assert c in Waiting(f);
    if c.extendsComponent != "" {
      LaidRooted(docs, f, next, [own] + rest);
    } else {
      LaidRooted(docs, f, next, rest);
    }
  }

  lemma LaidOutcome(docs: Documents, f: Frame)
    requires WellFormed(f) && f.phase.Mixing? && f.phase.tasks == []
    ensures WellFormed(f.(phase := Local(docs, f)))
    ensures Waiting(f.(phase := Local(docs, f)))
         == if f.phase.rest[0].extendsComponent == "" then f.phase.rest[1..]
            else [OverlayComponents(f.phase.mixed, f.phase.rest[0])] + f.phase.rest[1..]
    ensures Outcome(docs, f.(phase := Local(docs, f))) == Outcome(docs, f)
  {
    OwnExtendsAsRegistered(f.phase.mixed, f.phase.rest[0]);
    var own := OverlayComponents(f.phase.mixed, f.phase.rest[0]);
    if own.extendsComponent == "" {
      NextComponentOutcome(docs, f.(phase := Local(docs, f)), f.phase.rest[1..], OverlayComponents(f.phase.merged, own));
    }
  }

  lemma LaidRooted(docs: Documents, f: Frame, next: Frame, waiting: seq<Component>)
    requires Rooted(docs, f) && f.phase.Mixing? && f.name == next.name && Waiting(next) == waiting
    requires forall c :: c in waiting ==> exists d :: d in f.phase.rest && d.extendsComponent == c.extendsComponent
    ensures Rooted(docs, next)
  {
  }

  lemma LocalIsGood(docs: Documents, f: Frame)
    requires Good(docs, f) && !f.phase.Asking? && !f.phase.Publishing?
    requires f.phase.Fetching? ==> ByName(docs, f.name) != []
    ensures Good(docs, f.(phase := Local(docs, f)))
  {
    match f.phase
    case Fetching => FetchedIsGood(docs, f);
    case Populating(read, at) => if at < |read| { PopulatedIsGood(docs, f); } else { SortedIsGood(docs, f); }
    case Mixing(_, _, tasks, _, _) => if tasks == [] { LaidIsGood(docs, f); } else { MixedIsGood(docs, f); }
    case Enriching(_) =>
  }

  lemma LocalIsWellFormed(docs: Documents, f: Frame)
    requires WellFormed(f) && !f.phase.Asking? && !f.phase.Publishing?
    ensures WellFormed(f.(phase := Local(docs, f)))
  {
    if f.phase.Mixing? {
      if f.phase.tasks == [] { LaidOutcome(docs, f); } else { MixStepKeeps(docs, f.phase); }
    }
  }

  /** A caller that gets its parent's effective component goes on to its own. */
  lemma ResumedIsGood(docs: Documents, f: Frame, value: Option<Component>)
    requires Good(docs, f) && f.phase.Asking?
    requires Acyclic(docs, f.name) ==> value == Effective(docs, f.phase.own.extendsComponent)
    ensures Good(docs, Resume(f, value))
  {
    hide OverlayComponents, Acyclic;
    var rest := f.phase.rest;
    var merged := OverlayComponents(f.phase.merged, WithParent(f.phase.own, value));
    NextComponentOutcome(docs, Resume(f, value), rest, merged);
    assert forall c :: c in rest ==> c in Waiting(f);
  }

  lemma ParentIsAcyclic(docs: Documents, f: Frame)
    requires WellFormed(f) && Rooted(docs, f) && f.phase.Asking? && Acyclic(docs, f.name)
    ensures Acyclic(docs, f.phase.own.extendsComponent)
    ensures Height(docs, f.phase.own.extendsComponent) < Height(docs, f.name)
  {
    assert f.phase.own in Waiting(f);
    ParentLower(docs, f.name, f.phase.own.extendsComponent);
  }

  // ---- Readers.

  ghost predicate ReaderOk(epoch: nat, r: Reader) {
    && (r.Running? ==> Stacked(r.stack) && forall i :: 0 <= i < |r.stack| ==> r.stack[i].epoch <= epoch)
    && (r.Answered? ==> r.epoch <= epoch)
  }

  /** Whatever a reader took under the current epoch agrees with the current documents. */
  ghost predicate ReaderGood(docs: Documents, epoch: nat, r: Reader) {
    && (r.Running? ==> forall i :: 0 <= i < |r.stack| && r.stack[i].epoch == epoch ==> Good(docs, r.stack[i]))
    && (r.Answered? && r.epoch == epoch && Acyclic(docs, r.name) ==> r.answer == Effective(docs, r.name))
  }

  lemma ReplaceTop(stack: seq<Frame>, f: Frame)
    requires Stacked(stack) && WellFormed(f)
    requires f.name == stack[|stack| - 1].name && f.epoch == stack[|stack| - 1].epoch
    ensures Stacked(stack[..|stack| - 1] + [f])
  {
    var next := stack[..|stack| - 1] + [f];
    forall i, j | 0 <= i < j == i + 1 < |next| ensures Linked(next[i], next[j]) {
      assert Linked(stack[i], stack[j]);
    }
  }

  lemma DropTop(stack: seq<Frame>)
    requires Stacked(stack) && |stack| > 1
    ensures Stacked(stack[..|stack| - 1]) && Linked(stack[|stack| - 2], stack[|stack| - 1])
  {
    var next := stack[..|stack| - 1];
    forall i, j | 0 <= i < j == i + 1 < |next| ensures Linked(next[i], next[j]) {
      assert Linked(stack[i], stack[j]);
    }
    var i, j := |stack| - 2, |stack| - 1;
    assert j == i + 1 < |stack| && Linked(stack[i], stack[j]);
  }

  lemma PushTop(stack: seq<Frame>, f: Frame)
    requires Stacked(stack) && WellFormed(f) && Linked(stack[|stack| - 1], f)
    ensures Stacked(stack + [f])
  {
    var next := stack + [f];
    forall i, j | 0 <= i < j == i + 1 < |next| ensures Linked(next[i], next[j]) {
      if j < |stack| {
        assert Linked(stack[i], stack[j]);
      }
    }
  }

  lemma ResumeIsWellFormed(f: Frame, value: Option<Component>)
    requires WellFormed(f) && f.phase.Asking?
    ensures WellFormed(Resume(f, value))
  {
  }

  lemma ReturnOk(epoch: nat, stack: seq<Frame>, value: Option<Component>)
    requires ReaderOk(epoch, Running(stack))
    ensures ReaderOk(epoch, Return(stack, value))
  {
    if |stack| > 1 {
      DropTop(stack);
      var below := stack[..|stack| - 1];
      ResumeIsWellFormed(below[|below| - 1], value);
      ReplaceTop(below, Resume(below[|below| - 1], value));
    }
  }

  lemma AdvanceOk(s: State, stack: seq<Frame>)
    requires ReaderOk(s.epoch, Running(stack))
    ensures ReaderOk(s.epoch, AdvanceReader(s, stack).0)
  {
    var top := stack[|stack| - 1];
    if top.phase.Asking? {
      var (entered, value) := Call(s, stack, top.phase.own.extendsComponent);
      if entered.Some? {
        PushTop(stack, entered.value);
      } else {
        ResumeIsWellFormed(top, value);
        ReplaceTop(stack, Resume(top, value));
      }
    } else if top.phase.Publishing? {
      ReturnOk(s.epoch, stack, Some(top.phase.value));
    } else if top.phase.Fetching? && ByName(s.docs, top.name) == [] {
      ReturnOk(s.epoch, stack, None);
    } else {
      LocalIsWellFormed(s.docs, top);
      ReplaceTop(stack, top.(phase := Local(s.docs, top)));
    }
  }

  /** Activations of the current epoch sit on top of each other. */
  lemma {:induction false} CurrentAbove(epoch: nat, stack: seq<Frame>, k: nat, j: nat)
    requires ReaderOk(epoch, Running(stack)) && k <= j < |stack| && stack[k].epoch == epoch
    ensures stack[j].epoch == epoch
  {
    if k < j {
      CurrentAbove(epoch, stack, k, j - 1);
      assert Linked(stack[j - 1], stack[j]);
    }
  }

  ghost predicate Under(docs: Documents, n: string, m: string) {
    Acyclic(docs, m) ==> Acyclic(docs, n) && Height(docs, n) <= Height(docs, m)
  }

  lemma UnderTransitive(docs: Documents, a: string, b: string, c: string)
    requires Under(docs, a, b) && Under(docs, b, c)
    ensures Under(docs, a, c)
  {
  }

  lemma CalleeUnder(docs: Documents, caller: Frame, callee: Frame)
    requires WellFormed(caller) && Rooted(docs, caller) && Linked(caller, callee)
    ensures Under(docs, callee.name, caller.name)
  {
    if Acyclic(docs, caller.name) {
      ParentIsAcyclic(docs, caller);
    }
  }

  ghost predicate AllRooted(docs: Documents, epoch: nat, stack: seq<Frame>) {
    forall i :: 0 <= i < |stack| && stack[i].epoch == epoch ==> Rooted(docs, stack[i])
  }

  lemma {:induction false} Chained<T(!new)>(above: (T, T) -> bool, items: seq<T>, k: nat, j: nat)
    requires k <= j < |items| && above(items[k], items[k])
    requires forall a, b, c :: above(a, b) && above(b, c) ==> above(a, c)
    requires forall i, next :: k <= i < next == i + 1 <= j ==> above(items[next], items[i])
    ensures above(items[j], items[k])
  {
    if k < j {
      Chained(above, items, k, j - 1);
      var i, next := j - 1, j;
      assert k <= i < next == i + 1 <= j && above(items[next], items[i]);
    }
  }

  function NamesOf(stack: seq<Frame>): (names: seq<string>)
    ensures |names| == |stack| && forall i :: 0 <= i < |stack| ==> names[i] == stack[i].name
  {
    seq(|stack|, i requires 0 <= i < |stack| => stack[i].name)
  }

  lemma AdjacentUnder(docs: Documents, epoch: nat, stack: seq<Frame>, i: nat)
    requires ReaderOk(epoch, Running(stack)) && AllRooted(docs, epoch, stack)
    requires i + 1 < |stack| && stack[i].epoch == epoch
    ensures Under(docs, stack[i + 1].name, stack[i].name)
  {
    assert Linked(stack[i], stack[i + 1]) && Rooted(docs, stack[i]);
    CalleeUnder(docs, stack[i], stack[i + 1]);
  }

  /** Among activations of the current epoch, the inner one is an ancestor of the outer one. */
  lemma Descends(docs: Documents, epoch: nat, stack: seq<Frame>, k: nat, j: nat)
    requires ReaderOk(epoch, Running(stack)) && AllRooted(docs, epoch, stack)
    requires k <= j < |stack| && stack[k].epoch == epoch
    ensures Under(docs, stack[j].name, stack[k].name)
  {
    var names := NamesOf(stack);
    ghost var above := (n: string, m: string) => Under(docs, n, m);
    forall a, b, c | above(a, b) && above(b, c) ensures above(a, c) {
      UnderTransitive(docs, a, b, c);
    }
    forall i, next | k <= i < next == i + 1 <= j ensures above(names[next], names[i]) {
      CurrentAbove(epoch, stack, k, i);
      AdjacentUnder(docs, epoch, stack, i);
    }
    Chained(above, names, k, j);
  }

  /** With no older activation in the way, only a cycle of `extends` can cut a current reader. */
  lemma CutMeansCycle(docs: Documents, epoch: nat, stack: seq<Frame>)
    requires ReaderOk(epoch, Running(stack)) && ReaderGood(docs, epoch, Running(stack)) && !StaleCut(stack)
    requires stack[|stack| - 1].phase.Asking? && stack[|stack| - 1].epoch == epoch
    requires stack[|stack| - 1].phase.own.extendsComponent in Resolving(stack)
    ensures !Acyclic(docs, stack[|stack| - 1].name)
  {
    var n := |stack| - 1;
    var k :| 0 <= k < |stack| && stack[k].name == stack[n].phase.own.extendsComponent;
    assert stack[k].epoch == epoch;
    if Acyclic(docs, stack[n].name) {
      ParentIsAcyclic(docs, stack[n]);
      assert AllRooted(docs, epoch, stack);
      Descends(docs, epoch, stack, k, n);
    }
  }

  ghost predicate Returned(docs: Documents, f: Frame, value: Option<Component>) {
    Acyclic(docs, f.name) ==> value == Effective(docs, f.name)
  }

  lemma ReturnGood(docs: Documents, epoch: nat, stack: seq<Frame>, value: Option<Component>)
    requires ReaderOk(epoch, Running(stack)) && ReaderGood(docs, epoch, Running(stack))
    requires stack[|stack| - 1].epoch == epoch ==> Returned(docs, stack[|stack| - 1], value)
    ensures ReaderGood(docs, epoch, Return(stack, value))
  {
    hide Bounded, Filled, Effective, Height, Rooted, Linked, Acyclic, OverlayComponents;
    if |stack| > 1 {
      DropTop(stack);
      var caller := stack[|stack| - 2];
      if caller.epoch == epoch {
        CurrentAbove(epoch, stack, |stack| - 2, |stack| - 1);
        if Acyclic(docs, caller.name) {
          ParentIsAcyclic(docs, caller);
        }
        ResumedIsGood(docs, caller, value);
      }
    }
  }

  lemma PublishConsistent(s: State, top: Frame)
    requires Consistent(s.docs, s.cache) && top.phase.Publishing? && Good(s.docs, top)
    ensures Consistent(s.docs, s.cache[top.name := top.phase.value])
  {
    ConsistentPut(s.docs, s.cache, top.name, top.phase.value);
  }

  /** The value a call answers without an activation. */
  lemma CallValue(s: State, stack: seq<Frame>)
    requires Consistent(s.docs, s.cache) && ReaderOk(s.epoch, Running(stack))
    requires ReaderGood(s.docs, s.epoch, Running(stack)) && !StaleCut(stack)
    requires stack[|stack| - 1].phase.Asking? && stack[|stack| - 1].epoch == s.epoch
    requires Acyclic(s.docs, stack[|stack| - 1].name)
    ensures var parent := stack[|stack| - 1].phase.own.extendsComponent;
            Call(s, stack, parent).0.None? ==> Call(s, stack, parent).1 == Effective(s.docs, parent)
  {
    hide StaleCut;
    var top := stack[|stack| - 1];
    ParentIsAcyclic(s.docs, top);
    if top.phase.own.extendsComponent in Resolving(stack) {
      CutMeansCycle(s.docs, s.epoch, stack);
    }
  }

  lemma AskGood(s: State, stack: seq<Frame>)
    requires Consistent(s.docs, s.cache) && ReaderOk(s.epoch, Running(stack))
    requires ReaderGood(s.docs, s.epoch, Running(stack))
    requires stack[|stack| - 1].epoch == s.epoch ==> !StaleCut(stack)
    requires stack[|stack| - 1].phase.Asking?
    ensures ReaderGood(s.docs, s.epoch, AdvanceReader(s, stack).0)
  {
    hide Enrich, Outcome;
    var top := stack[|stack| - 1];
    var (entered, value) := Call(s, stack, top.phase.own.extendsComponent);
    if entered.Some? {
      EnteredIsGood(s.docs, entered.value.name, s.epoch);
    } else if top.epoch == s.epoch {
      if Acyclic(s.docs, top.name) {
        CallValue(s, stack);
      }
      ResumedIsGood(s.docs, top, value);
    }
  }

  /** While no edit is half done, a reader's step keeps it and the cache in agreement with the documents. */
  lemma AdvanceGood(s: State, stack: seq<Frame>)
    requires Consistent(s.docs, s.cache) && ReaderOk(s.epoch, Running(stack))
    requires ReaderGood(s.docs, s.epoch, Running(stack))
    requires stack[|stack| - 1].epoch == s.epoch ==> !StaleCut(stack)
    ensures ReaderGood(s.docs, s.epoch, AdvanceReader(s, stack).0)
    ensures Consistent(s.docs, AdvanceReader(s, stack).1)
  {
    hide ByName;
    var top := stack[|stack| - 1];
    if top.phase.Asking? {
      AskGood(s, stack);
    } else if top.phase.Publishing? {
      ReturnGood(s.docs, s.epoch, stack, Some(top.phase.value));
      if s.epoch == top.epoch {
        PublishConsistent(s, top);
      }
    } else if top.phase.Fetching? && ByName(s.docs, top.name) == [] {
      ReturnGood(s.docs, s.epoch, stack, None);
    } else if top.epoch == s.epoch {
      LocalIsGood(s.docs, top);
    }
  }

  // ---- Whole runs.

  /** The protocol's invariant: the cache is only claimed right while no edit is half done. */
  ghost predicate Invariant(s: State) {
    && (forall r :: r in s.readers ==> ReaderOk(s.epoch, r))
    && (s.pending == 0 ==>
          && Consistent(s.docs, s.cache)
          && forall r :: r in s.readers ==> ReaderGood(s.docs, s.epoch, r))
  }

  lemma BumpedEpoch(s: State, docs: Documents, r: Reader)
    requires ReaderOk(s.epoch, r)
    ensures ReaderOk(s.epoch + 1, r) && ReaderGood(docs, s.epoch + 1, r)
  {
  }

  lemma BeginKeeps(s: State, a: Action)
    requires Invariant(s) && a.Begin? && Enabled(s, a)
    ensures Invariant(Next(s, a))
  {
    var (entered, value) := Call(s, [], a.name);
    if entered.Some? {
      EnteredIsGood(s.docs, a.name, s.epoch);
    }
  }

  lemma AdvanceKeeps(s: State, a: Action)
    requires Invariant(s) && a.Advance? && Enabled(s, a) && !CutsStale(s, a)
    ensures Invariant(Next(s, a))
  {
    var stack := s.readers[a.reader].stack;
    assert s.readers[a.reader] in s.readers;
    AdvanceOk(s, stack);
    if s.pending == 0 {
      AdvanceGood(s, stack);
    }
  }

  /** Every step of readers and live edits keeps the invariant, unless it disturbs. */
  lemma StepKeepsInvariant(s: State, a: Action)
    requires Invariant(s) && Enabled(s, a) && !Disturbs(s, a)
    ensures Invariant(Next(s, a))
  {
    if a.Begin? {
      BeginKeeps(s, a);
    } else if a.Advance? {
      AdvanceKeeps(s, a);
    } else if Renews(a) {
      RenewalRestores(s, a);
    }
  }

  /** What the readers keep even after a disturbance. */
  ghost predicate ReadersOk(s: State) {
    forall r :: r in s.readers ==> ReaderOk(s.epoch, r)
  }

  lemma StepKeepsReaders(s: State, a: Action)
    requires ReadersOk(s) && Enabled(s, a)
    ensures ReadersOk(Next(s, a))
  {
    if a.Advance? {
      assert s.readers[a.reader] in s.readers;
      AdvanceOk(s, s.readers[a.reader].stack);
    }
  }

  /** An invalidation makes good whatever went wrong before it. */
  lemma RenewalRestores(s: State, a: Action)
    requires ReadersOk(s) && Enabled(s, a) && Renews(a)
    ensures Invariant(Next(s, a))
  {
    forall r | r in s.readers ensures ReaderOk(s.epoch + 1, r) && ReaderGood(s.docs, s.epoch + 1, r) {
      BumpedEpoch(s, s.docs, r);
    }
  }

  lemma {:induction false} RunKeepsInvariant(s: State, actions: seq<Action>)
    requires ReadersOk(s) && Legal(s, actions) && Settles(s, actions)
    requires Invariant(s) || Renewed(actions)
    ensures Invariant(After(s, actions))
    decreases |actions|
  {
    if actions != [] {
      var next := Next(s, actions[0]);
      StepKeepsReaders(s, actions[0]);
      if Renews(actions[0]) {
        RenewalRestores(s, actions[0]);
      } else if Invariant(s) && !Disturbs(s, actions[0]) {
        StepKeepsInvariant(s, actions[0]);
      } else {
        RenewedLater(actions);
      }
      RunKeepsInvariant(next, actions[1..]);
    }
  }

  lemma RenewedLater(actions: seq<Action>)
    requires actions != [] && !Renews(actions[0])
    ensures Renewed(actions) ==> Renewed(actions[1..])
  {
    if Renewed(actions) {
      var i :| 0 <= i < |actions| && Renews(actions[i]);
      assert actions[1..][i - 1] == actions[i];
    }
  }

  ghost predicate AnswerIsCurrent(s: State, r: Reader) {
    r.Answered? && r.epoch == s.epoch && Acyclic(s.docs, r.name) ==> r.answer == Effective(s.docs, r.name)
  }

  /** Epoch protocol safety: whatever the interleaving of readers and edits, when no edit is
      between its write and its invalidation and everything that disturbs has been followed by
      an invalidation, every cached component of a name without a reachable cycle is the
      effective component of the current documents, and so is every answer whose epoch is still
      the current one. */
  lemma CacheIsCurrent(s: State, actions: seq<Action>)
    requires Initial(s) && Legal(s, actions) && Settles(s, actions)
    requires After(s, actions).pending == 0
    ensures Consistent(After(s, actions).docs, After(s, actions).cache)
    ensures forall r :: r in After(s, actions).readers ==> AnswerIsCurrent(After(s, actions), r)
  {
    RunKeepsInvariant(s, actions);
  }

  // ---- Documents whose versions share one order.

  /** One rank decreases from every component to everything it extends. */
  ghost predicate Ranked(docs: Documents, rank: string -> nat) {
    forall n, p :: p in Parents(docs, n) ==> rank(p) < rank(n)
  }

  ghost predicate AlwaysRanked(s: State, actions: seq<Action>, rank: string -> nat)
    requires Legal(s, actions)
    decreases |actions|
  {
    Ranked(s.docs, rank) && (actions != [] ==> AlwaysRanked(Next(s, actions[0]), actions[1..], rank))
  }

  lemma {:induction false} RankBounds(docs: Documents, rank: string -> nat, name: string, d: nat)
    requires Ranked(docs, rank) && rank(name) <= d
    ensures Bounded(docs, name, d)
    decreases d
  {
    forall p | p in Parents(docs, name) ensures d > 0 && Bounded(docs, p, d - 1) {
      assert rank(p) < rank(name);
      RankBounds(docs, rank, p, d - 1);
    }
  }

  lemma RankedIsAcyclic(docs: Documents, rank: string -> nat, name: string)
    requires Ranked(docs, rank)
    ensures Acyclic(docs, name)
  {
    RankBounds(docs, rank, name, rank(name));
  }

  /** What an activation read, in whatever version, extends only names of lower rank. */
  ghost predicate Descending(rank: string -> nat, f: Frame) {
    forall c :: c in Waiting(f) && c.extendsComponent != "" ==> rank(c.extendsComponent) < rank(f.name)
  }

  ghost predicate ReaderDescends(rank: string -> nat, r: Reader) {
    r.Running? ==> forall i :: 0 <= i < |r.stack| ==> Descending(rank, r.stack[i])
  }

  lemma WaitingFetched(docs: Documents, rank: string -> nat, f: Frame)
    requires Ranked(docs, rank) && f.phase.Fetching?
    ensures Descending(rank, f.(phase := Populating(ByName(docs, f.name), 0)))
  {
    forall c | c in ByName(docs, f.name) && c.extendsComponent != "" ensures rank(c.extendsComponent) < rank(f.name) {
      assert c.extendsComponent in Parents(docs, f.name);
    }
  }

  lemma NextDescends(rank: string -> nat, f: Frame, rest: seq<Component>, merged: Component)
    requires f.phase == NextComponent(rest, merged)
    requires forall c :: c in rest && c.extendsComponent != "" ==> rank(c.extendsComponent) < rank(f.name)
    ensures Descending(rank, f)
  {
  }

  lemma PopulatingDescends(docs: Documents, rank: string -> nat, f: Frame)
    requires WellFormed(f) && Descending(rank, f) && f.phase.Populating?
    ensures Descending(rank, f.(phase := Local(docs, f)))
  {
    var next, read, at := f.(phase := Local(docs, f)), f.phase.read, f.phase.at;
    if at < |read| {
      PopulateKeeps(docs, read[at]);
      forall c | c in Waiting(next) && c.extendsComponent != "" ensures rank(c.extendsComponent) < rank(f.name) {
        var i :| 0 <= i < |next.phase.read| && next.phase.read[i] == c;
        assert read[i] in Waiting(f) && read[i].extendsComponent == c.extendsComponent;
      }
    } else {
      var sorted := SortStable(read, RegistrationLess);
      forall c | c in sorted && c.extendsComponent != "" ensures rank(c.extendsComponent) < rank(f.name) {
        SortKeeps(read, RegistrationLess, c);
        assert c in Waiting(f);
      }
      NextDescends(rank, next, sorted, Blank(f.name));
    }
  }

  lemma LocalDescends(docs: Documents, rank: string -> nat, f: Frame)
    requires Ranked(docs, rank) && WellFormed(f) && Descending(rank, f) && !f.phase.Asking? && !f.phase.Publishing?
    ensures Descending(rank, f.(phase := Local(docs, f)))
  {
    hide Enrich, Outcome, OverlayComponents;
    match f.phase
    case Fetching => WaitingFetched(docs, rank, f);
    case Populating(_, _) => PopulatingDescends(docs, rank, f);
    case Mixing(rest, _, tasks, _, _) =>
      if tasks == [] {
        LaidOutcome(docs, f);
        OwnExtendsAsRegistered(f.phase.mixed, rest[0]);
        assert rest[0] in Waiting(f);
      } else {
        MixStepKeeps(docs, f.phase);
      }
    case Enriching(_) =>
  }

  lemma ResumeDescends(rank: string -> nat, f: Frame, value: Option<Component>)
    requires f.phase.Asking? && Descending(rank, f)
    ensures Descending(rank, Resume(f, value))
  {
    assert forall c :: c in f.phase.rest ==> c in Waiting(f);
    NextDescends(rank, Resume(f, value), f.phase.rest, Resume(f, value).phase.merged);
  }

  lemma ReturnDescends(rank: string -> nat, stack: seq<Frame>, value: Option<Component>)
    requires Stacked(stack) && ReaderDescends(rank, Running(stack))
    ensures ReaderDescends(rank, Return(stack, value))
  {
    if |stack| > 1 {
      DropTop(stack);
      ResumeDescends(rank, stack[|stack| - 2], value);
    }
  }

  lemma ReplaceDescends(rank: string -> nat, stack: seq<Frame>, f: Frame)
    requires stack != [] && ReaderDescends(rank, Running(stack)) && Descending(rank, f)
    ensures ReaderDescends(rank, Running(stack[..|stack| - 1] + [f])) && ReaderDescends(rank, Running(stack + [f]))
  {
  }

  lemma AskDescends(s: State, rank: string -> nat, stack: seq<Frame>)
    requires Stacked(stack) && ReaderDescends(rank, Running(stack)) && stack[|stack| - 1].phase.Asking?
    ensures ReaderDescends(rank, AdvanceReader(s, stack).0)
  {
    hide Resume;
    var top := stack[|stack| - 1];
    var (entered, value) := Call(s, stack, top.phase.own.extendsComponent);
    ResumeDescends(rank, top, value);
    ReplaceDescends(rank, stack, if entered.Some? then entered.value else Resume(top, value));
  }

  lemma AdvanceDescends(s: State, rank: string -> nat, stack: seq<Frame>)
    requires Ranked(s.docs, rank) && Stacked(stack) && ReaderDescends(rank, Running(stack))
    ensures ReaderDescends(rank, AdvanceReader(s, stack).0)
  {
    hide ByName;
    var top := stack[|stack| - 1];
    if top.phase.Asking? {
      AskDescends(s, rank, stack);
    } else if top.phase.Publishing? {
      ReturnDescends(rank, stack, Some(top.phase.value));
    } else if top.phase.Fetching? && ByName(s.docs, top.name) == [] {
      ReturnDescends(rank, stack, None);
    } else {
      LocalDescends(s.docs, rank, top);
      ReplaceDescends(rank, stack, top.(phase := Local(s.docs, top)));
    }
  }

  /** Ranks fall along the whole stack. */
  lemma {:induction false} StackDescends(rank: string -> nat, stack: seq<Frame>, k: nat, j: nat)
    requires Stacked(stack) && ReaderDescends(rank, Running(stack)) && k <= j < |stack|
    ensures rank(stack[j].name) <= rank(stack[k].name)
  {
    if k < j {
      StackDescends(rank, stack, k, j - 1);
      assert Linked(stack[j - 1], stack[j]) && Descending(rank, stack[j - 1]);
      assert stack[j - 1].phase.own in Waiting(stack[j - 1]);
    }
  }

  lemma DescendingNeverCuts(rank: string -> nat, stack: seq<Frame>)
    requires Stacked(stack) && ReaderDescends(rank, Running(stack))
    ensures !StaleCut(stack)
  {
    var n := |stack| - 1;
    if stack[n].phase.Asking? {
      assert Descending(rank, stack[n]) && stack[n].phase.own in Waiting(stack[n]);
      forall k | 0 <= k < |stack| ensures stack[k].name != stack[n].phase.own.extendsComponent {
        StackDescends(rank, stack, k, n);
      }
    }
  }

  lemma StepDescends(s: State, a: Action, rank: string -> nat)
    requires Ranked(s.docs, rank) && Enabled(s, a)
    requires forall r :: r in s.readers ==> ReaderDescends(rank, r)
    ensures forall r :: r in Next(s, a).readers ==> ReaderDescends(rank, r)
    ensures !CutsStale(s, a)
  {
    if a.Advance? {
      assert s.readers[a.reader] in s.readers;
      AdvanceDescends(s, rank, s.readers[a.reader].stack);
      DescendingNeverCuts(rank, s.readers[a.reader].stack);
    }
  }

  lemma {:induction false} RankedSettles(s: State, actions: seq<Action>, rank: string -> nat)
    requires Legal(s, actions) && AlwaysRanked(s, actions, rank) && WritesRenewed(actions)
    requires forall r :: r in s.readers ==> ReaderDescends(rank, r)
    ensures Settles(s, actions) && Ranked(After(s, actions).docs, rank)
    decreases |actions|
  {
    if actions != [] {
      StepDescends(s, actions[0], rank);
      RankedSettles(Next(s, actions[0]), actions[1..], rank);
    }
  }

  /** When one rank orders the extends edges of every version of the documents, the cache and
      the current answers are exactly the effective components, without further conditions. */
  lemma RankedCacheIsCurrent(s: State, actions: seq<Action>, rank: string -> nat)
    requires Initial(s) && Legal(s, actions) && WritesRenewed(actions) && AlwaysRanked(s, actions, rank)
    requires After(s, actions).pending == 0
    ensures forall n :: n in After(s, actions).cache ==>
              Effective(After(s, actions).docs, n) == Some(After(s, actions).cache[n])
    ensures forall r :: r in After(s, actions).readers && r.Answered? && r.epoch == After(s, actions).epoch ==>
              r.answer == Effective(After(s, actions).docs, r.name)
  {
    RankedSettles(s, actions, rank);
    CacheIsCurrent(s, actions);
    forall n ensures Acyclic(After(s, actions).docs, n) {
      RankedIsAcyclic(After(s, actions).docs, rank, n);
    }
  }
}
