/** overlayComponents of internal/admin/indexer_effective.go, field by field. */
module ComponentOverlay {
  import opened AdminModel
  import opened Overlay

  predicate Upper(c: char) {
    'A' <= c <= 'Z'
  }

  function Lower(c: char): char {
    if Upper(c) then ((c as int) + 32) as char else c
  }

  function ToLower(s: string): string {
    seq(|s|, i requires 0 <= i < |s| => Lower(s[i]))
  }

  /** CamelToKebab: every capital letter but the first is preceded by a dash. */
  function CamelToKebab(s: string): string {
    if s == [] then []
    else
      var init, c := s[..|s| - 1], s[|s| - 1];
      CamelToKebab(init) + if Upper(c) && init != [] then ['-', Lower(c)] else [Lower(c)]
  }

  function SlotKey(s: Slot): string {
    if s.name != "" then "exact\0" + s.name else "dynamic\0" + s.namePrefix + "\0" + s.nameSuffix
  }

  function KindName(k: MemberKind): string {
    match k
    case DataMember => "data"
    case ComputedMember => "computed"
    case MethodMember => "method"
    case PropMember => "prop"
    case InjectMember => "inject"
  }

  function MemberKey(m: Member): string {
    KindName(m.kind) + "\0" + m.name
  }

  function Filled(overlay: string, base: string): string {
    if overlay == "" then base else overlay
  }

  const PROPS := Policy((x: Prop) => x.name, (x: Prop, y: Prop) => y, false)
  const NAMES := Policy((x: string) => x, (x: string, y: string) => x, true)
  const LOCALS := Policy((x: LocalEntry) => ToLower(x.name), (x: LocalEntry, y: LocalEntry) => y, true)
  const SCOPE_MEMBERS := Policy((x: ScopeMember) => x.name, (x: ScopeMember, y: ScopeMember) => y, true)
  const MEMBERS := Policy(MemberKey, MergeMember, false)
  const SLOTS := Policy(SlotKey, MergeSlot, false)
  const EVENTS := Policy((x: Event) => CamelToKebab(x.name), MergeEvent, true)
  const BLOCKS := Policy((x: Block) => x.name, MergeBlock, false)

  function MergeMember(x: Member, y: Member): Member {
    y.(deprecated := Filled(y.deprecated, x.deprecated))
  }

  /** A slot keeps the older range only when it stays in the same file. */
  function MergeSlot(x: Slot, y: Slot): Slot {
    var file := Filled(y.filePath, x.filePath);
    y.(filePath := file,
       line := if y.line == 0 then x.line else y.line,
       nameRange := if y.nameRange == NO_RANGE && file == x.filePath then x.nameRange else y.nameRange)
  }

  function MergeEvent(x: Event, y: Event): Event {
    y.(documentation := Filled(y.documentation, x.documentation),
       eventType := Filled(y.eventType, x.eventType),
       filePath := Filled(y.filePath, x.filePath),
       line := if y.line == 0 then x.line else y.line,
       nameRange := if y.nameRange == NO_RANGE then x.nameRange else y.nameRange)
  }

  function MergeBlock(x: Block, y: Block): Block {
    y.(deprecated := Filled(y.deprecated, x.deprecated),
       scopeMembers := Lay(x.scopeMembers, y.scopeMembers, SCOPE_MEMBERS))
  }

  function OverlayComponents(base: Component, overlay: Component): Component {
    Component(
      Filled(overlay.name, base.name),
      Filled(overlay.deprecated, base.deprecated),
      if overlay.kind.Unspecified? then base.kind else overlay.kind,
      Filled(overlay.targetComponent, base.targetComponent),
      Filled(overlay.extendsComponent, base.extendsComponent),
      Filled(overlay.importPath, base.importPath),
      Filled(overlay.filePath, base.filePath),
      Filled(overlay.definitionPath, base.definitionPath),
      if overlay.line == 0 then base.line else overlay.line,
      Lay(base.props, overlay.props, PROPS),
      Filled(overlay.modelProp, base.modelProp),
      Filled(overlay.modelEvent, base.modelEvent),
      Lay(base.emits, overlay.emits, NAMES),
      Lay(base.events, overlay.events, EVENTS),
      Lay(base.methods, overlay.methods, NAMES),
      Lay(base.computed, overlay.computed, NAMES),
      Lay(base.data, overlay.data, NAMES),
      Lay(base.injected, overlay.injected, NAMES),
      Lay(base.mixins, overlay.mixins, NAMES),
      Lay(base.localComponents, overlay.localComponents, LOCALS),
      Lay(base.localDirectives, overlay.localDirectives, LOCALS),
      Lay(base.members, overlay.members, MEMBERS),
      base.openRuntimeMembers || overlay.openRuntimeMembers,
      base.assignments + overlay.assignments,
      Lay(base.slots, overlay.slots, SLOTS),
      Lay(base.blocks, overlay.blocks, BLOCKS),
      Filled(overlay.templatePath, base.templatePath),
      base.inlineDefinition)
  }

  /** The statement sequence of overlayComponents, on a mutable copy of the base. */
  method OverlayInto(base: Component, overlay: Component) returns (result: Component)
    ensures result == OverlayComponents(base, overlay)
  {
    PoliciesKeyStable();
    var origin := OverlayOrigin(base, overlay);
    result := OverlayModel(origin, overlay);
    var emits, methods, computed, data, injected, mixins := OverlayNameLists(base, overlay);
    var props := OverlayLoop(base.props, overlay.props, PROPS);
    var events := OverlayLoop(base.events, overlay.events, EVENTS);
    var components := OverlayLoop(base.localComponents, overlay.localComponents, LOCALS);
    var directives := OverlayLoop(base.localDirectives, overlay.localDirectives, LOCALS);
    var members := OverlayLoop(base.members, overlay.members, MEMBERS);
    var slots := OverlayLoop(base.slots, overlay.slots, SLOTS);
    var blocks := OverlayLoop(base.blocks, overlay.blocks, BLOCKS);
    result := result.(props := props, emits := emits, events := events, methods := methods, computed := computed,
                      data := data, injected := injected, mixins := mixins, localComponents := components,
                      localDirectives := directives, members := members,
                      assignments := base.assignments + overlay.assignments, slots := slots, blocks := blocks);
  }

  method OverlayOrigin(base: Component, overlay: Component) returns (result: Component)
    ensures result == base.(
      name := Filled(overlay.name, base.name), deprecated := Filled(overlay.deprecated, base.deprecated),
      kind := if overlay.kind.Unspecified? then base.kind else overlay.kind,
      targetComponent := Filled(overlay.targetComponent, base.targetComponent),
      extendsComponent := Filled(overlay.extendsComponent, base.extendsComponent),
      importPath := Filled(overlay.importPath, base.importPath))
  {
    result := base;
    if overlay.name != "" { result := result.(name := overlay.name); }
    if overlay.deprecated != "" { result := result.(deprecated := overlay.deprecated); }
    if !overlay.kind.Unspecified? { result := result.(kind := overlay.kind); }
    if overlay.targetComponent != "" { result := result.(targetComponent := overlay.targetComponent); }
    if overlay.extendsComponent != "" { result := result.(extendsComponent := overlay.extendsComponent); }
    if overlay.importPath != "" { result := result.(importPath := overlay.importPath); }
  }

  method OverlayModel(base: Component, overlay: Component) returns (result: Component)
    ensures result == base.(
      filePath := Filled(overlay.filePath, base.filePath),
      definitionPath := Filled(overlay.definitionPath, base.definitionPath),
      line := if overlay.line == 0 then base.line else overlay.line,
      templatePath := Filled(overlay.templatePath, base.templatePath),
      modelProp := Filled(overlay.modelProp, base.modelProp), modelEvent := Filled(overlay.modelEvent, base.modelEvent),
      openRuntimeMembers := base.openRuntimeMembers || overlay.openRuntimeMembers)
  {
    result := base.(openRuntimeMembers := base.openRuntimeMembers || overlay.openRuntimeMembers);
    if overlay.filePath != "" { result := result.(filePath := overlay.filePath); }
    if overlay.definitionPath != "" { result := result.(definitionPath := overlay.definitionPath); }
    if overlay.line != 0 { result := result.(line := overlay.line); }
    if overlay.templatePath != "" { result := result.(templatePath := overlay.templatePath); }
    if overlay.modelProp != "" { result := result.(modelProp := overlay.modelProp); }
    if overlay.modelEvent != "" { result := result.(modelEvent := overlay.modelEvent); }
  }

  method OverlayNameLists(base: Component, overlay: Component)
    returns (emits: seq<string>, methods: seq<string>, computed: seq<string>, data: seq<string>,
             injected: seq<string>, mixins: seq<string>)
    ensures emits == Lay(base.emits, overlay.emits, NAMES)
    ensures methods == Lay(base.methods, overlay.methods, NAMES)
    ensures computed == Lay(base.computed, overlay.computed, NAMES)
    ensures data == Lay(base.data, overlay.data, NAMES)
    ensures injected == Lay(base.injected, overlay.injected, NAMES)
    ensures mixins == Lay(base.mixins, overlay.mixins, NAMES)
  {
    PoliciesKeyStable();
    emits := OverlayLoop(base.emits, overlay.emits, NAMES);
    methods := OverlayLoop(base.methods, overlay.methods, NAMES);
    computed := OverlayLoop(base.computed, overlay.computed, NAMES);
    data := OverlayLoop(base.data, overlay.data, NAMES);
    injected := OverlayLoop(base.injected, overlay.injected, NAMES);
    mixins := OverlayLoop(base.mixins, overlay.mixins, NAMES);
  }

  lemma PoliciesKeyStable()
    ensures KeyStable(PROPS) && KeyStable(NAMES) && KeyStable(LOCALS) && KeyStable(SCOPE_MEMBERS)
    ensures KeyStable(MEMBERS) && KeyStable(SLOTS) && KeyStable(EVENTS) && KeyStable(BLOCKS)
  {
  }

  // ---- Overlay algebra.

  /** Every list of the component is keyed without duplicates. */
  ghost predicate WellKeyed(c: Component) {
    && UniqueKeys(c.props, PROPS) && UniqueKeys(c.emits, NAMES) && UniqueKeys(c.events, EVENTS)
    && UniqueKeys(c.methods, NAMES) && UniqueKeys(c.computed, NAMES) && UniqueKeys(c.data, NAMES)
    && UniqueKeys(c.injected, NAMES) && UniqueKeys(c.mixins, NAMES)
    && UniqueKeys(c.localComponents, LOCALS) && UniqueKeys(c.localDirectives, LOCALS)
    && UniqueKeys(c.members, MEMBERS) && UniqueKeys(c.slots, SLOTS)
    && UniqueKeys(c.blocks, BLOCKS)
    && forall b :: b in c.blocks ==> UniqueKeys(b.scopeMembers, SCOPE_MEMBERS)
  }

  /** The component with the ranges of its slots forgotten. */
  function WithoutSlotRanges(c: Component): Component {
    c.(slots := Unranged(c.slots))
  }

  function Unranged(slots: seq<Slot>): (r: seq<Slot>)
    ensures |r| == |slots|
  {
    seq(|slots|, i requires 0 <= i < |slots| => slots[i].(nameRange := NO_RANGE))
  }

  /** When three overlays of one slot lose or keep different ranges: an anonymous-file range put
      on the same file that returns, or a range that comes back after a foreign file. */
  predicate SlotRangesDisagree(x: Slot, y: Slot, z: Slot) {
    && z.nameRange == NO_RANGE && z.filePath != "" && z.filePath == x.filePath
    && if y.filePath == "" then y.nameRange != NO_RANGE && y.nameRange != x.nameRange
       else y.filePath != z.filePath && x.nameRange != NO_RANGE
  }

  /** The three-way merge of one slot is associative exactly when SlotRangesDisagree is false. */
  lemma MergeSlotAssociativity(x: Slot, y: Slot, z: Slot)
    ensures MergeSlot(MergeSlot(x, y), z) == MergeSlot(x, MergeSlot(y, z)) <==> !SlotRangesDisagree(x, y, z)
    ensures MergeSlot(MergeSlot(x, y), z).(nameRange := NO_RANGE)
         == MergeSlot(x, MergeSlot(y, z)).(nameRange := NO_RANGE)
  {
    assert MergeSlot(MergeSlot(x, y), z).(nameRange := NO_RANGE)
        == MergeSlot(x, MergeSlot(y, z)).(nameRange := NO_RANGE);
  }

  /** Three slots in files a, b and a: bracketing decides whether the first range survives. */
  lemma SlotRangeWitness() returns (x: Slot, y: Slot, z: Slot)
    ensures SlotKey(x) == SlotKey(y) == SlotKey(z)
    ensures Lay(Lay([x], [y], SLOTS), [z], SLOTS) != Lay([x], Lay([y], [z], SLOTS), SLOTS)
  {
    x := Slot("default", "", "", 1, SourceRange(1, 0, 1, 4), "a.twig");
    y := Slot("default", "", "", 2, NO_RANGE, "b.twig");
    z := Slot("default", "", "", 3, NO_RANGE, "a.twig");
    MergeSlotAssociativity(x, y, z);
    LaySingle(x, y, SLOTS);
    LaySingle(MergeSlot(x, y), z, SLOTS);
    LaySingle(y, z, SLOTS);
    LaySingle(x, MergeSlot(y, z), SLOTS);
  }

  lemma LaySingle<T>(x: T, y: T, p: Policy<T>)
    requires p.key(x) == p.key(y) && !p.skipEmpty
    ensures Lay([x], [y], p) == [p.merge(x, y)]
  {
    PositionIs([x], p, p.key(y), 0);
    assert [y][..0] == [];
    assert Lay([x], [], p) == [x];
  }

  lemma UnrangedPosition(list: seq<Slot>, k: string)
    ensures Position(Unranged(list), SLOTS, k) == Position(list, SLOTS, k)
  {
    PositionIs(Unranged(list), SLOTS, k, Position(list, SLOTS, k));
  }

  /** Forgetting ranges commutes with overlaying slots. */
  lemma {:induction false} UnrangedLay(base: seq<Slot>, overlay: seq<Slot>)
    ensures Unranged(Lay(base, overlay, SLOTS)) == Lay(Unranged(base), Unranged(overlay), SLOTS)
  {
    hide Put;
    if overlay != [] {
      var init, x := overlay[..|overlay| - 1], overlay[|overlay| - 1];
      UnrangedLay(base, init);
      assert Unranged(overlay) == Unranged(init) + [x.(nameRange := NO_RANGE)];
      assert Unranged(overlay)[..|overlay| - 1] == Unranged(init);
      UnrangedPut(Lay(base, init, SLOTS), x);
    }
  }

  lemma UnrangedPut(list: seq<Slot>, x: Slot)
    ensures Unranged(Put(list, SLOTS, x)) == Put(Unranged(list), SLOTS, x.(nameRange := NO_RANGE))
  {
    UnrangedPosition(list, SlotKey(x));
  }

  lemma UnrangedUnique(list: seq<Slot>)
    requires UniqueKeys(list, SLOTS)
    ensures UniqueKeys(Unranged(list), SLOTS)
  {
  }

  lemma SlotsAssociative(a: seq<Slot>, b: seq<Slot>, c: seq<Slot>)
    requires UniqueKeys(a, SLOTS) && UniqueKeys(b, SLOTS) && UniqueKeys(c, SLOTS)
    ensures Unranged(Lay(Lay(a, b, SLOTS), c, SLOTS)) == Unranged(Lay(a, Lay(b, c, SLOTS), SLOTS))
  {
    var x, y, z := Unranged(a), Unranged(b), Unranged(c);
    assert Unranged(Lay(Lay(a, b, SLOTS), c, SLOTS)) == Lay(Lay(x, y, SLOTS), z, SLOTS) by {
      UnrangedLay(a, b);
      UnrangedLay(Lay(a, b, SLOTS), c);
    }
    assert Unranged(Lay(a, Lay(b, c, SLOTS), SLOTS)) == Lay(x, Lay(y, z, SLOTS), SLOTS) by {
      UnrangedLay(b, c);
      UnrangedLay(a, Lay(b, c, SLOTS));
    }
    UnrangedUnique(a);
    UnrangedUnique(b);
    UnrangedUnique(c);
    UnrangedAssociates(x, y, z);
    PoliciesKeyStable();
    LayAssociative(x, y, z, SLOTS);
  }

  lemma UnrangedAssociates(x: seq<Slot>, y: seq<Slot>, z: seq<Slot>)
    requires forall s :: s in x || s in y || s in z ==> s.nameRange == NO_RANGE
    ensures Associates(SLOTS, x, y, z)
  {
    forall p, q, r | p in x && q in y && r in z && SlotKey(p) == SlotKey(q) == SlotKey(r)
      ensures MergeSlot(MergeSlot(p, q), r) == MergeSlot(p, MergeSlot(q, r))
    {
      MergeSlotAssociativity(p, q, r);
    }
  }

  lemma BlocksAssociative(a: seq<Block>, b: seq<Block>, c: seq<Block>)
    requires UniqueKeys(a, BLOCKS) && UniqueKeys(b, BLOCKS) && UniqueKeys(c, BLOCKS)
    requires forall x :: x in a || x in b || x in c ==> UniqueKeys(x.scopeMembers, SCOPE_MEMBERS)
    ensures Lay(Lay(a, b, BLOCKS), c, BLOCKS) == Lay(a, Lay(b, c, BLOCKS), BLOCKS)
  {
    forall x, y, z | x in a && y in b && z in c && x.name == y.name == z.name
      ensures MergeBlock(MergeBlock(x, y), z) == MergeBlock(x, MergeBlock(y, z))
    {
      LayAssociative(x.scopeMembers, y.scopeMembers, z.scopeMembers, SCOPE_MEMBERS);
    }
    LayAssociative(a, b, c, BLOCKS);
  }

  lemma NamesAssociative(a: seq<string>, b: seq<string>, c: seq<string>)
    requires UniqueKeys(a, NAMES) && UniqueKeys(b, NAMES) && UniqueKeys(c, NAMES)
    ensures Lay(Lay(a, b, NAMES), c, NAMES) == Lay(a, Lay(b, c, NAMES), NAMES)
  {
    LayAssociative(a, b, c, NAMES);
  }

  lemma LocalsAssociative(a: seq<LocalEntry>, b: seq<LocalEntry>, c: seq<LocalEntry>)
    requires UniqueKeys(a, LOCALS) && UniqueKeys(b, LOCALS) && UniqueKeys(c, LOCALS)
    ensures Lay(Lay(a, b, LOCALS), c, LOCALS) == Lay(a, Lay(b, c, LOCALS), LOCALS)
  {
    LayAssociative(a, b, c, LOCALS);
  }

  /** Component overlays may be bracketed either way, up to the ranges of slots. */
  lemma OverlayAssociative(a: Component, b: Component, c: Component)
    requires WellKeyed(a) && WellKeyed(b) && WellKeyed(c)
    ensures WithoutSlotRanges(OverlayComponents(OverlayComponents(a, b), c))
         == WithoutSlotRanges(OverlayComponents(a, OverlayComponents(b, c)))
  {
    var left, right := OverlayComponents(OverlayComponents(a, b), c), OverlayComponents(a, OverlayComponents(b, c));
    ScalarsAssociative(a, b, c);
    ListFieldsAssociative(a, b, c);
    NameFieldsAssociative(a, b, c);
    SameFields(left, right);
  }

  lemma SameFields(x: Component, y: Component)
    requires SameScalars(x, y) && SameLists(x, y) && SameTemplates(x, y) && SameNameLists(x, y)
    ensures WithoutSlotRanges(x) == WithoutSlotRanges(y)
  {
    assert x == y.(slots := x.slots);
  }

  lemma ListFieldsAssociative(a: Component, b: Component, c: Component)
    requires WellKeyed(a) && WellKeyed(b) && WellKeyed(c)
    ensures SameLists(OverlayComponents(OverlayComponents(a, b), c), OverlayComponents(a, OverlayComponents(b, c)))
    ensures SameTemplates(OverlayComponents(OverlayComponents(a, b), c),
                          OverlayComponents(a, OverlayComponents(b, c)))
  {
    ListsAssociative(a, b, c);
    assert (a.assignments + b.assignments) + c.assignments == a.assignments + (b.assignments + c.assignments);
    SlotsAssociative(a.slots, b.slots, c.slots);
    BlocksAssociative(a.blocks, b.blocks, c.blocks);
  }

  lemma NameFieldsAssociative(a: Component, b: Component, c: Component)
    requires WellKeyed(a) && WellKeyed(b) && WellKeyed(c)
    ensures SameNameLists(OverlayComponents(OverlayComponents(a, b), c), OverlayComponents(a, OverlayComponents(b, c)))
  {
    NameListsAssociative(a, b, c);
  }

  predicate SameNameLists(x: Component, y: Component) {
    && x.emits == y.emits && x.methods == y.methods && x.computed == y.computed && x.data == y.data
    && x.injected == y.injected && x.mixins == y.mixins
  }

  predicate SameLists(x: Component, y: Component) {
    && x.props == y.props && x.events == y.events && x.localComponents == y.localComponents
    && x.localDirectives == y.localDirectives && x.members == y.members
  }

  predicate SameTemplates(x: Component, y: Component) {
    x.assignments == y.assignments && Unranged(x.slots) == Unranged(y.slots) && x.blocks == y.blocks
  }

  predicate SameScalars(x: Component, y: Component) {
    && x.name == y.name && x.deprecated == y.deprecated && x.kind == y.kind
    && x.targetComponent == y.targetComponent && x.extendsComponent == y.extendsComponent
    && x.importPath == y.importPath && x.filePath == y.filePath && x.definitionPath == y.definitionPath
    && x.line == y.line && x.modelProp == y.modelProp && x.modelEvent == y.modelEvent
    && x.openRuntimeMembers == y.openRuntimeMembers && x.templatePath == y.templatePath
    && x.inlineDefinition == y.inlineDefinition
  }

  lemma ScalarsAssociative(a: Component, b: Component, c: Component)
    ensures SameScalars(OverlayComponents(OverlayComponents(a, b), c), OverlayComponents(a, OverlayComponents(b, c)))
  {
  }

  lemma ListsAssociative(a: Component, b: Component, c: Component)
    requires WellKeyed(a) && WellKeyed(b) && WellKeyed(c)
    ensures Lay(Lay(a.props, b.props, PROPS), c.props, PROPS) == Lay(a.props, Lay(b.props, c.props, PROPS), PROPS)
    ensures Lay(Lay(a.events, b.events, EVENTS), c.events, EVENTS)
         == Lay(a.events, Lay(b.events, c.events, EVENTS), EVENTS)
    ensures Lay(Lay(a.localComponents, b.localComponents, LOCALS), c.localComponents, LOCALS)
         == Lay(a.localComponents, Lay(b.localComponents, c.localComponents, LOCALS), LOCALS)
    ensures Lay(Lay(a.localDirectives, b.localDirectives, LOCALS), c.localDirectives, LOCALS)
         == Lay(a.localDirectives, Lay(b.localDirectives, c.localDirectives, LOCALS), LOCALS)
    ensures Lay(Lay(a.members, b.members, MEMBERS), c.members, MEMBERS)
         == Lay(a.members, Lay(b.members, c.members, MEMBERS), MEMBERS)
  {
    hide Lay;
    PoliciesKeyStable();
    LayAssociative(a.props, b.props, c.props, PROPS);
    LayAssociative(a.events, b.events, c.events, EVENTS);
    LocalsAssociative(a.localComponents, b.localComponents, c.localComponents);
    LocalsAssociative(a.localDirectives, b.localDirectives, c.localDirectives);
    LayAssociative(a.members, b.members, c.members, MEMBERS);
  }

  lemma NameListsAssociative(a: Component, b: Component, c: Component)
    requires WellKeyed(a) && WellKeyed(b) && WellKeyed(c)
    ensures Lay(Lay(a.emits, b.emits, NAMES), c.emits, NAMES) == Lay(a.emits, Lay(b.emits, c.emits, NAMES), NAMES)
    ensures Lay(Lay(a.methods, b.methods, NAMES), c.methods, NAMES)
         == Lay(a.methods, Lay(b.methods, c.methods, NAMES), NAMES)
    ensures Lay(Lay(a.computed, b.computed, NAMES), c.computed, NAMES)
         == Lay(a.computed, Lay(b.computed, c.computed, NAMES), NAMES)
    ensures Lay(Lay(a.data, b.data, NAMES), c.data, NAMES) == Lay(a.data, Lay(b.data, c.data, NAMES), NAMES)
    ensures Lay(Lay(a.injected, b.injected, NAMES), c.injected, NAMES)
         == Lay(a.injected, Lay(b.injected, c.injected, NAMES), NAMES)
    ensures Lay(Lay(a.mixins, b.mixins, NAMES), c.mixins, NAMES)
         == Lay(a.mixins, Lay(b.mixins, c.mixins, NAMES), NAMES)
  {
    NamesAssociative(a.emits, b.emits, c.emits);
    NamesAssociative(a.methods, b.methods, c.methods);
    NamesAssociative(a.computed, b.computed, c.computed);
    NamesAssociative(a.data, b.data, c.data);
    NamesAssociative(a.injected, b.injected, c.injected);
    NamesAssociative(a.mixins, b.mixins, c.mixins);
  }

  /** Overlaying keeps every list keyed without duplicates. */
  lemma OverlayWellKeyed(a: Component, b: Component)
    requires WellKeyed(a) && WellKeyed(b)
    ensures WellKeyed(OverlayComponents(a, b))
  {
    PoliciesKeyStable();
    LayUnique(a.props, b.props, PROPS);
    LayUnique(a.events, b.events, EVENTS);
    LayUnique(a.localComponents, b.localComponents, LOCALS);
    LayUnique(a.localDirectives, b.localDirectives, LOCALS);
    LayUnique(a.members, b.members, MEMBERS);
    LayUnique(a.slots, b.slots, SLOTS);
    NameListsWellKeyed(a, b);
    LayUnique(a.blocks, b.blocks, BLOCKS);
    BlocksWellKeyed(a.blocks, b.blocks);
  }

  lemma NameListsWellKeyed(a: Component, b: Component)
    requires WellKeyed(a) && WellKeyed(b)
    ensures UniqueKeys(Lay(a.emits, b.emits, NAMES), NAMES) && UniqueKeys(Lay(a.methods, b.methods, NAMES), NAMES)
    ensures UniqueKeys(Lay(a.computed, b.computed, NAMES), NAMES) && UniqueKeys(Lay(a.data, b.data, NAMES), NAMES)
    ensures UniqueKeys(Lay(a.injected, b.injected, NAMES), NAMES) && UniqueKeys(Lay(a.mixins, b.mixins, NAMES), NAMES)
  {
    LayUnique(a.emits, b.emits, NAMES);
    LayUnique(a.methods, b.methods, NAMES);
    LayUnique(a.computed, b.computed, NAMES);
    LayUnique(a.data, b.data, NAMES);
    LayUnique(a.injected, b.injected, NAMES);
    LayUnique(a.mixins, b.mixins, NAMES);
  }

  lemma {:induction false} BlocksWellKeyed(base: seq<Block>, overlay: seq<Block>)
    requires forall b :: b in base || b in overlay ==> UniqueKeys(b.scopeMembers, SCOPE_MEMBERS)
    ensures forall b :: b in Lay(base, overlay, BLOCKS) ==> UniqueKeys(b.scopeMembers, SCOPE_MEMBERS)
  {
    if overlay != [] {
      var init, x := overlay[..|overlay| - 1], overlay[|overlay| - 1];
      assert forall b :: b in init ==> b in overlay;
      assert x in overlay;
      BlocksWellKeyed(base, init);
      var before := Lay(base, init, BLOCKS);
      var i := Position(before, BLOCKS, x.name);
      if i >= 0 {
        assert before[i] in before;
        PoliciesKeyStable();
        LayUnique(before[i].scopeMembers, x.scopeMembers, SCOPE_MEMBERS);
      }
    }
  }
}
