# Administration index: model and proofs

The language server keeps an index of the Vue components, mixins, types and templates of the
Shopware Administration (`internal/admin`). This project models its analysis engine in Dafny and
proves what the rest of the server relies on. Run `dafny verify dfyconfig.toml` in this directory.

## What is modelled

| files | subject |
|---|---|
| `overlay`, `component_overlay`, `overlay_fields` | the right-biased overlays that build a component, their algebra, and which entry of each list they keep |
| `live_view` | open editor documents over the persisted index, over whole sessions |
| `effective_component`, `component_index`, `registration_order` | the effective component: the recursive reference value, the memoised and guarded recursion, the index object with its cache and epoch, and which registration decides |
| `epoch_protocol`, `epoch_witnesses` | the cache protocol as a state machine: readers snapshot, read piecemeal and publish; editors write and then invalidate; any interleaving |
| `text_scan`, `slot_grammar`, `type_text`, `type_grammar`, `type_substitution`, `callable_type` | delimiter and quote scanning, a grammar of nested text it is checked against, splitting and merging unions, a grammar of printed types they are split back into, substituting type parameters, return types |
| `member_inference`, `inference_convergence`, `inference_witnesses` | the in-place type inference and when it reaches a fixed point |
| `type_values`, `member_types`, `template_members` | which branches inferred types have, which values they admit, and which member a chain starts from |
| `static_chain` | member chains, parsed back from their printed form |
| `selector_text`, `selector_syntax`, `selector_reading`, `selector_resolver`, `selector_types`, `selector_soundness`, `selector_names`, `selector_witnesses` | the names a dynamic component selector can evaluate to, against an evaluator and against the leaves it reaches |
| `static_selector` | the inline scan of such selectors and its source ranges |
| `return_flow`, `token_pieces`, `statement_flow`, `method_returns` | the token automata that claim a method body cannot fall off its end: exactly which bodies they accept, and how those execute |
| `type_resolver`, `type_members`, `type_unfolding`, `type_completeness`, `type_converse`, `type_names`, `type_resolution`, `type_witnesses` | the cycle-guarded structural type resolver, against a guard-free unfolding with inherited or lexical scope: when an answer is complete, which names every answer shows, and which declaration each member comes from |
| `call_scanner`, `call_nesting`, `call_prefix`, `call_callee` | the call scanner behind signature help and the literal/comment test |
| `vue_bindings` | the bindings visible at a template position |
| `admin_model`, `stable_sort` | the records of the index and the stable sort they are ordered by |

Code that changes state step by step is a class or a method with loops here; what it computes is
a function, and the properties are lemmas about that function. The clock of the epoch protocol is
the order of its steps. Paths are taken in cleaned form, the persisted index is a list of values,
and the content-management registry is a parameter that maps expressions to name lists.

## Where the code does not do what is wished for

Each point is proved; the exact condition is proved with it where one is known.

- The epoch protocol alone does not keep the cache right, even when `extends` is acyclic in every
  version of the documents: an activation that started before an edit still stands in `resolving`
  and can cut the parent of an activation that started after it, whose truncated value is then
  published under the current epoch (`EpochWitnesses.StaleFrameWitness`). The cache is right
  whenever an invalidation follows the last such cut (`EpochProtocol.CacheIsCurrent`), and always
  when one order fits the `extends` edges of every version (`EpochProtocol.RankedCacheIsCurrent`).
- Invalidating before writing, the order of the persistent indexing, leaves stale entries.
- With a cycle of `extends` an answer depends on which name was asked for first.
- Slot overlays are associative except for the name range, exactly under the condition
  `ComponentOverlay.SlotRangesDisagree`.
- `mergeVueTypes` trims the line break that ends a line comment and then loses the next branch;
  splitting its output gives its branches exactly when they are `TypeText.Separable`.
- The arrow of a function type closes an angle bracket, so `Map<() => a, b>` is split at its comma;
  `TypeGrammar.SplitTypesIff` says exactly which printed types are split back into themselves.
- `a ?? b` is given the type of `a` alone when `b` says nothing, so `a ?? null` loses its `null`
  (`TypeValues.CoversIff`).
- A written data member keeps an annotation only if its initializer resolves to a type that says
  something too, or the writes agree; the comment in the source says it always does
  (`MemberTypes.AnnotationKeptIff`).
- Substitution in text also replaces property names and words in quotes that are spelled like a
  parameter (`TypeSubstitution.PropertyKeptIff`).
- Substituting twice is harmless exactly when no replacement is changed by the map. Otherwise the
  resolver's re-entry with the same map can go on forever.
- The number of members bounds the inference passes exactly as long as no written data member
  loses its seed: a weak indexed type without a resolving initializer is merged into the first
  flow type and dropped from the second. Twice the number is always enough.
- A selector over data is never complete, unless the indexed type is: the type is asked first. A
  template literal type is taken for the one name it spells, holes and all
  (`SelectorTypes.TypeCoversIff`); a member that shares a local component's name is answered by the
  component (`SelectorWitnesses.SharedNameIff`); a name returned by a method is looked up among the
  template members even when it is a parameter; and a function whose body is a conditional is
  answered as the conditional.
- Ranges of inline candidates are off by the vertical tabs and form feeds in front of them, exactly
  when there are any.
- A body that shows a return outside braces, with no code behind a semicolon after it, is taken to
  return always, also when the return stands in an unbraced branch or loop, or is a property's name
  (`it.return()`), or code without semicolons follows it; `m.default` counts as the default of a
  switch; and a break inside nested braces leaves a switch unseen. `TokenPieces.AcceptsIff` says
  exactly which bodies are accepted, and `StatementFlow.NamelessFallsOffIff` which of those without
  such names fall off their end; `NamedReturnFamily` and `NamedDefaultFamily` are about the others.
- Entity interfaces are merged without looking at their index signatures; a complete answer is
  earned exactly when they have none. Type parameters leak into inherited declarations, which is
  harmless exactly where no declaration mentions a name only its callers bound. A self-growing
  alias has infinitely many keys.
- The search for a callee goes on into a line comment that stands in front of the parenthesis, and
  takes its last word for the callee, exactly when what follows the comment does not decide it.
- The call scanner and the position test agree exactly as long as no closing brace of a template's
  code meets another open delimiter.
- A binding declared at a position outside its own scope counts as local there but is not visible.

## Model

| member | source | states |
|---|---|---|
| `Overlay.OverlayLoop` | internal/admin/indexer_effective.go:540-555 | the `positions` loop shared by all list overlays computes the key-wise overlay: an equal key is overwritten in place, a new key is appended |
| `Overlay.LayKeys` | internal/admin/indexer_effective.go:540-752 | the keys of an overlaid list are the base keys in their order, then the new keys in first-seen order |
| `Overlay.LayUnique` | internal/admin/indexer_effective.go:540-752 | overlaying a list with unique keys never creates a duplicate key, whatever the overlay repeats |
| `Overlay.LayLookup` | internal/admin/indexer_effective.go:540-752 | a keyed lookup in the result is the right-biased merge of the two lookups |
| `Overlay.LayAssociative` | internal/admin/indexer_effective.go:540-752 | overlays of uniquely keyed lists may be bracketed either way when the entry merge is associative on the entries of each key |
| `ComponentOverlay.OverlayInto` | internal/admin/indexer_effective.go:477-538 | the statement sequence of overlayComponents, on a mutable copy of the base, yields the field-by-field overlay |
| `ComponentOverlay.OverlayOrigin` | internal/admin/indexer_effective.go:478-499 | which scalar origin fields an overlay fills and which keep the base value |
| `ComponentOverlay.OverlayModel` | internal/admin/indexer_effective.go:490-536 | paths, line, model contract and the open-runtime flag: filled values win, the flag is sticky |
| `ComponentOverlay.OverlayNameLists` | internal/admin/indexer_effective.go:557-570 | the six name lists are overlaid without empty names and without duplicates |
| `ComponentOverlay.OverlayAssociative` | internal/admin/indexer_effective.go:477-752 | component overlays are associative on every field except the slots' name ranges |
| `ComponentOverlay.MergeSlotAssociativity` | internal/admin/indexer_effective.go:641-668 | the three-way merge of one slot is associative exactly when the file-path condition on its name range does not bite |
| `ComponentOverlay.SlotRangeWitness` | internal/admin/indexer_effective.go:641-668 | three slots in files a, b and a whose overlay depends on the bracketing |
| `ComponentOverlay.OverlayWellKeyed` | internal/admin/indexer_effective.go:477-752 | overlaying keeps every list of a component free of duplicate keys |
| `OverlayFields.LayMember` | internal/admin/indexer_effective.go:540-752 | the overlaid list holds the overlay's entries, merged with the base entry of their key, and the base entries whose key the overlay does not have |
| `OverlayFields.PropsKept` | internal/admin/indexer_effective.go:540-555 | a redeclared prop replaces its parent's; the others stay |
| `OverlayFields.MembersKept` | internal/admin/indexer_effective.go:620-639 | a member is replaced by one of its kind and name, which inherits a deprecation it does not state |
| `OverlayFields.EventsKept` | internal/admin/indexer_effective.go:670-706 | an event is known by its name in kebab case; the later one keeps what it leaves empty |
| `OverlayFields.LocalsKept` | internal/admin/indexer_effective.go:572-618 | local names are told apart without their case and the later entry wins |
| `OverlayFields.BlocksKept` | internal/admin/indexer_effective.go:707-752 | a redefined block keeps its deprecation and the scope members of the base that it does not name |
| `OverlayFields.BlocksNamed` | internal/admin/indexer_effective.go:707-752 | the names of the blocks are those of both sides |
| `OverlayFields.SlotKeyIff` | internal/admin/component.go:893-898 | two slots are the same exactly if they have the same name, or neither has one and prefix and suffix agree |
| `OverlayFields.SlotsKept` | internal/admin/indexer_effective.go:641-668 | which slots an overlay keeps, with which file, line and range |
| `OverlayFields.PlainListsKept` | internal/admin/indexer_effective.go:557-570 | a plain name list holds the base's names and the overlay's, each once, without the empty name |
| `OverlayFields.OriginKept` | internal/admin/indexer_effective.go:478-538 | the kind, line, open-runtime flag and inline definition of an overlaid component |
| `LiveView.SortPaths` | internal/admin/live_vue.go:625-629 | the open paths, collected in any order, come out as the one sorted list of the map's keys |
| `LiveView.SelectLoop` | internal/admin/live_vue.go:615-623 | the filter loops keep exactly the accepted values, in order |
| `LiveView.OverlayLiveValues` | internal/admin/live_vue.go:604-718 | persisted values of closed files, then the open documents' values path by path |
| `LiveView.LiveLegacyIsLastSnapshot` | internal/admin/live_vue.go:152-235 | after any session of updates and closes the document map holds, path by path, the last live snapshot |
| `LiveView.SessionView` | internal/admin/live_vue.go:152-235 | after any session the merged catalogue holds for each path the last live snapshot if it is open and the persisted values otherwise |
| `LiveView.ByNameFiltersIff` | internal/admin/live_vue.go:604-642 | a by-name lookup equals filtering the full catalogue exactly for every real name; the empty name also yields all live registrations |
| `LiveView.ClosingRestores` | internal/admin/live_vue.go:222-235 | closing everything a session opened restores the persisted catalogue, and the type files the inference reads |
| `LiveView.TypesAreLastTexts` | internal/admin/type_index.go:1125-1163 | after any session the type inference reads for each path the last text of the open file and the persisted one otherwise |
| `LiveView.TwigIsLastTemplate` | internal/admin/live_vue.go:152-235 | and after any session the last template parsed of each open file of the source tree |
| `EffectiveComponent.QueryIsEffective` | internal/admin/indexer_effective.go:165-239 | memo equals recursion: from a consistent cache a query of a name without a reachable cycle returns the cache-free, guard-free recursive overlay |
| `EffectiveComponent.QueriesInAnyOrder` | internal/admin/indexer_effective.go:165-239 | any sequence of queries between invalidations, in any order, leaves every answer the reference value |
| `EffectiveComponent.OwnExtends` | internal/admin/indexer_effective.go:315-354 | mixins never change the parent a registration extends |
| `EffectiveComponent.ParentLower` | internal/admin/indexer_effective.go:212-224 | on an acyclic graph every extended parent has a strictly smaller height, which is what ends the recursion without the guard |
| `ComponentIndex.AdminComponentIndexer.Invalidate` | internal/admin/indexer_components.go:635-647 | invalidation empties the template and effective caches and advances the epoch |
| `ComponentIndex.AdminComponentIndexer.UpdateLiveDocument` | internal/admin/live_vue.go:152-235 | a live edit or close writes the document maps and invalidates; an ignored path changes nothing |
| `ComponentIndex.AdminComponentIndexer.GetComponent` | internal/admin/indexer_effective.go:65-71 | the by-name view with live documents |
| `ComponentIndex.AdminComponentIndexer.OrderedRegistrations` | internal/admin/indexer_effective.go:183-204 | registrations are populated in place and sorted, overrides last, each group by file |
| `RegistrationOrder.OrderedIsRight` | internal/admin/indexer_effective.go:183-204 | the ordered registrations are the populated ones, no override stands before another registration, paths do not fall within either group, and equal entries keep their order |
| `RegistrationOrder.LastFilledDecides` | internal/admin/indexer_effective.go:206-226 | of two registrations that fill a field, the last in that order decides it in the effective component |
| `RegistrationOrder.PopulateChooses` | internal/admin/indexer_effective.go:241-289 | a registration carries the inline definition, else the one at its path, else the stored one of its name in its file, else the only one of its name, with the open template in place |
| `RegistrationOrder.MixinsAreOrdered` | internal/admin/indexer_effective.go:315-354 | the mixins of a name are applied in file order, equal files in index order |
| `RegistrationOrder.LaidDecides` | internal/admin/indexer_effective.go:315-354 | what a registration fills beats its mixins, and these its parent, whose deprecation is not inherited |
| `RegistrationOrder.MixinOnTop` | internal/admin/indexer_effective.go:318-352 | the last mixin of a name beats the mixins it uses, and those before it |
| `RegistrationOrder.UnknownMixinOpens` | internal/admin/indexer_effective.go:325-335 | a mixin that is not indexed leaves the component open at run time |
| `ComponentIndex.AdminComponentIndexer.EffectiveComponent` | internal/admin/indexer_effective.go:165-239 | the guarded, memoised recursion answers what the memo specification says and hands `resolving` back unchanged |
| `ComponentIndex.AdminComponentIndexer.ResolveRegistered` | internal/admin/indexer_effective.go:180-239 | the guarded part: merge, enrich, and the value to publish |
| `ComponentIndex.AdminComponentIndexer.MergeRegistrations` | internal/admin/indexer_effective.go:206-226 | the loop that overlays each registration on its resolved parent |
| `ComponentIndex.AdminComponentIndexer.GetEffectiveComponent` | internal/admin/indexer_effective.go:161-163 | for a name without a reachable cycle the answer is the reference value whatever was queried before, and the cache stays consistent |
| `ComponentIndex.MixinFold.ApplyMixin` | internal/admin/indexer_effective.go:318-352 | the recursive mixin fold, with its shared `seen` set, runs the same task list as the specification and terminates on cyclic mixins |
| `ComponentIndex.MixinFold.ApplyVisited` | internal/admin/indexer_effective.go:336-345 | the mixins a definition uses are laid before the definition itself |
| `ComponentIndex.ComponentWithMixins` | internal/admin/indexer_effective.go:315-354 | a registration over the fold of its mixins |
| `ComponentIndex.GetMixin` | internal/admin/indexer_components.go:25-39 | the mixins of a name, live documents included, in file order |
| `ComponentIndex.EnrichInPlace` | internal/admin/component_type_inference.go:36-88 | the effective component's members are enriched on a mutable copy, from the type files with the open ones in place |
| `EpochProtocol.StepKeepsInvariant` | internal/admin/indexer_effective.go:172-237 | every step of a reader, a live write and an invalidation keeps the invariant, unless it disturbs: a write of the indexing, or an activation with an older epoch cutting a current one |
| `EpochProtocol.RenewalRestores` | internal/admin/indexer_components.go:635-647 | an invalidation restores the invariant whatever went wrong before it |
| `EpochProtocol.RunKeepsInvariant` | internal/admin/indexer_effective.go:172-237 | the invariant holds at the end of every run in which each disturbing step is followed by an invalidation |
| `EpochProtocol.CacheIsCurrent` | internal/admin/indexer_effective.go:172-237 | epoch safety: after any interleaving of readers and edits in which each disturbing step is followed by an invalidation, when no edit is half done every cached component of a name without a reachable cycle, and every answer of the current epoch, is the effective component of the current documents |
| `EpochProtocol.CutMeansCycle` | internal/admin/indexer_effective.go:168-171 | among activations of the current epoch the guard only ever cuts a real cycle of the current documents |
| `EpochProtocol.DescendingNeverCuts` | internal/admin/indexer_effective.go:168-171 | where one rank falls along everything the activations read, the guard never cuts at all |
| `EpochProtocol.RankedSettles` | internal/admin/indexer_effective.go:172-237 | when one rank orders the `extends` edges of every version of the documents no activation is ever cut by an older one |
| `EpochProtocol.RankedCacheIsCurrent` | internal/admin/indexer_effective.go:172-237 | then the cache and the current answers are exactly the effective components, with no further condition |
| `EpochWitnesses.StaleFrameWitness` | internal/admin/indexer_effective.go:168-237 | a run of one reader and one live edit, acyclic in every version, that leaves a truncated component cached under the current epoch |
| `EpochWitnesses.InvalidateThenWriteWitness` | internal/admin/indexer.go:201-241 | invalidating before writing, as persistent indexing does, leaves a stale entry under the current epoch |
| `EpochWitnesses.CycleWitness` | internal/admin/indexer_effective.go:168-214 | on a two-node cycle the answer for a name depends on which name was queried first |
| `TextScan.MatchingSlotDelimiter` | internal/admin/slot_scope.go:937-961 | the byte loop returns the index where the depth first comes back to zero outside quotes, or -1 |
| `TextScan.MatchingIffEnclosed` | internal/admin/slot_scope.go:937-961 | the closing delimiter written for a pair is the one found exactly when the text between is enclosed |
| `SlotGrammar.NestedIsMatched` | internal/admin/slot_scope.go:937-961 | for nested text of brackets, literals with escapes and anything else, that delimiter is the one written for the opening one, whatever follows |
| `SlotGrammar.ItemsLevel` | internal/admin/slot_scope.go:899-935 | and such text leaves the depths of the top-level scan as they were |
| `SlotGrammar.OperatorBehind` | internal/admin/component_type_inference.go:1068-1103 | an operator is found at the first boundary of nested text where it stands: what brackets and literals hold is passed over |
| `TypeText.SplitAdminTypeTopLevel` | internal/admin/type_index.go:1241-1285 | the splitting loop, with its start and index cursors, returns the pieces between top-level separators |
| `TypeText.SplitYieldsBranches` | internal/admin/type_index.go:1241-1285 | every piece of a union is trimmed and holds no further top-level bar |
| `TypeText.MergeVueTypes` | internal/admin/component_type_inference.go:1128-1142 | the merge loop joins the distinct non-empty branches in first-seen order |
| `TypeText.SplitMergedUnion` | internal/admin/component_type_inference.go:1128-1142 | splitting a merged union returns exactly its distinct branches if and only if every branch but the last scans to the neutral state with a bar behind it |
| `TypeText.MergeTwoSteps` | internal/admin/component_type_inference.go:1128-1142 | merging in two steps is merging at once, and so merging is idempotent, when the branches merged first are separable |
| `TypeText.LineCommentWitness` | internal/admin/component_type_inference.go:1128-1142 | a branch that ends in a line comment loses its line break to trimming and swallows the next branch |
| `TypeGrammar.SplitTypesIff` | internal/admin/type_index.go:1241-1285 | splitting printed types, of names, quoted literals with escapes, generics, tuples, objects, functions, comments and operators, returns exactly these types if and only if none of them shows the separator outside all brackets |
| `TypeGrammar.GuardedSplitIff` | internal/admin/type_index.go:1241-1285 | as long as generics hold no arrow, that is exactly when no type is itself an operator of the separator, or a function that returns one |
| `TypeGrammar.ArrowInGeneric` | internal/admin/type_index.go:1266-1277 | an arrow in a generic closes its angle bracket, so the comma behind it separates |
| `TypeValues.MergedOrder` | internal/admin/component_type_inference.go:1128-1142 | a merge has every non-empty branch of its values once, ordered by where each is first met |
| `TypeSubstitution.SubstituteAdminType` | internal/admin/type_index.go:1287-1311 | the builder loop replaces whole identifiers and nothing else |
| `TypeSubstitution.NameKeptIff` | internal/admin/type_index.go:1287-1311 | a name stands for itself exactly if the map has no other, non-empty text for it |
| `TypeSubstitution.SubstituteIdempotentIff` | internal/admin/type_index.go:1287-1311 | substituting twice equals substituting once on every text exactly when no replacement is changed by the map |
| `TypeSubstitution.UnmentionedKeysAreStable` | internal/admin/type_index.go:1287-1311 | it is enough that no replacement text mentions a key |
| `TypeSubstitution.SwapWitness` | internal/admin/type_index.go:1287-1311 | swapped parameters: the second substitution undoes the first |
| `TypeSubstitution.PropertyKeptIff` | internal/admin/type_index.go:1287-1311 | property names are replaced like references: an object type keeps its property's name exactly when the name stands for itself |
| `TypeSubstitution.LiteralKeptIff` | internal/admin/type_index.go:1287-1311 | and so are words in quotes |
| `TypeSubstitution.CaptureWitness` | internal/admin/type_index.go:1287-1311 | an alias parameter named like a property: the property is renamed to the argument |
| `MemberInference.InferMembers` | internal/admin/component_type_inference.go:44-77 | one in-place forward pass over the members, each seeing the types its predecessors got in the same pass |
| `MemberInference.FlowMembers` | internal/admin/component_type_inference.go:90-178 | one in-place pass of the assignment evidence |
| `MemberInference.EnrichMemberTypes` | internal/admin/component_type_inference.go:42-87 | at most as many passes as there are members, stopping early when a pass changes nothing, computes the iterated passes |
| `MemberInference.FixedForever` | internal/admin/component_type_inference.go:36-88 | a pass that changes nothing is never followed by one that does |
| `TypeValues.NullishBranchesIff` | internal/admin/component_type_inference.go:1104-1126 | the branches of the type of `a ?? b` are those of `a` that are not nullish and then those of `b`, unless `b` says nothing beside an `a` that does, exactly if each leaves nothing open before the next |
| `TypeValues.CoversIff` | internal/admin/component_type_inference.go:1115-1126 | every value of `a ?? b` inhabits that type, however the branches are read, exactly if `b` is not left out or repeats what is kept of `a` |
| `TypeValues.NullIsLost` | internal/admin/component_type_inference.go:1122-1124 | the failing case: `a ?? null` is given a type without `null` |
| `TypeValues.NullishAdmits` | internal/admin/component_type_inference.go:1104-1126 | and it admits nothing that `b` or a kept branch of `a` does not |
| `TypeValues.ExpressionInhabits` | internal/admin/component_type_inference.go:282-310 | every value of an expression inhabits the type inferred for it, in the file it is read in, if its leaves' values do and no `??` in it drops or moves an operand |
| `TypeValues.LeftInhabits` | internal/admin/component_type_inference.go:303-309 | the ordinary values of the left operand are admitted in its own file even then |
| `TypeValues.AssignmentBranchesIff` | internal/admin/component_type_inference.go:196-237 | the merged writes say nothing exactly if no branch does; otherwise they have the written branches and then the initial ones, without placeholders, exactly if each leaves nothing open before the next |
| `TypeValues.WeakSeedIff` | internal/admin/component_type_inference.go:180-194 | a seed is weak exactly if every branch of it is empty, nullish or a placeholder |
| `MemberTypes.NeededIff` | internal/admin/component_type_inference.go:239-246 | a value is retyped if it has no type, or has a source and no branch that says anything |
| `MemberTypes.MethodNeededIff` | internal/admin/component_type_inference.go:239-246 | a method with a signature is retyped exactly if that returns `unknown` |
| `MemberTypes.InferredInhabits` | internal/admin/component_type_inference.go:44-77 | the type a pass gives to a member, read in the file the pass records, admits every value of its source, as its type or as what it returns |
| `MemberTypes.ChainInhabits` | internal/admin/component_type_inference.go:356-385 | what a chain reads off a value of its root member inhabits the chain's type, which is as open as the member |
| `MemberTypes.FlowedBranches` | internal/admin/component_type_inference.go:90-178 | a data member typed by its writes has the branches of the types of its writes and of its initial type, besides placeholders, and no others |
| `MemberTypes.FlowedContext` | internal/admin/component_type_inference.go:142-174 | it is read in the file of the first write that has one |
| `MemberTypes.FlowedOpen` | internal/admin/component_type_inference.go:157-166 | a member becomes open exactly if its writes can type it and one that resolves is an object literal |
| `MemberTypes.InferredOpen` | internal/admin/component_type_inference.go:66-77 | a pass never closes a member, and opens one only if the first operand of its source is open |
| `MemberTypes.AnnotationKeptIff` | internal/admin/component_type_inference.go:113-132 | an annotated data member keeps its type exactly if its initializer resolves to a type that says something, or the writes say nothing, or the same |
| `MemberTypes.AnnotationLost` | internal/admin/component_type_inference.go:113-132 | the failing case: `string`, no initializer, one written number, and the type is `number` |
| `MemberTypes.ContextIs` | internal/admin/component_type_inference.go:248-263 | the first filled path among type context, member file, definition and registration decides where a type is read |
| `CallableType.FilledReturns` | internal/admin/component_type_inference.go:265-280 | the return type filled into a signature is what the result returns, if the signature is empty or starts with a closed parameter list; otherwise nothing changes |
| `CallableType.ReturnFilled` | internal/admin/component_type_inference.go:265-280 | the parameters stay and what stood behind them is replaced |
| `CallableType.ReturnRead` | internal/admin/value_type.go:782-808 | a parameter list, an arrow or a colon, and a type: the type is what is returned |
| `CallableType.ParenthesesIgnored` | internal/admin/value_type.go:782-808 | parentheses around a whole signature do not matter |
| `TemplateMembers.ListMembers` | internal/admin/component.go:622-693 | the loops over members, props and name lists, with their position map, list what a template can name |
| `TemplateMembers.RootIsListed` | internal/admin/component.go:695-702 | the member a chain starts from is the first of its name in that list, if it has a type |
| `InferenceConvergence.InferenceConverges` | internal/admin/component_type_inference.go:36-178 | with acyclic forwarding and assignment dependencies, as many passes as members reach a fixed point, if every member keeps its seed in the pass that finds its dependencies settled |
| `InferenceConvergence.SteppedIsFixedIff` | internal/admin/component_type_inference.go:44-178 | over settled dependencies a pass fixes a member exactly when the member keeps its seed: its initializer resolves, or its indexed type is not weak, or the writes say the same with the seed as without, or nothing without it |
| `InferenceConvergence.RankSettlesIff` | internal/admin/component_type_inference.go:36-178 | once everything below a rank is settled, one more pass settles the rank exactly when its members keep their seeds, and none loses a seed twice |
| `InferenceConvergence.OnScheduleIff` | internal/admin/component_type_inference.go:36-178 | one pass a rank is enough, all the way, exactly when no member loses its seed |
| `InferenceConvergence.TwiceConverges` | internal/admin/component_type_inference.go:36-178 | with acyclic dependencies alone, twice as many passes as members always reach a fixed point |
| `InferenceConvergence.HarmlessConverges` | internal/admin/component_type_inference.go:36-178 | what can be read off before any pass: written data members whose initializer is a literal, an assertion or a store value, or whose indexed type says something, or that have neither, converge within the bound |
| `InferenceWitnesses.BoundIsTight` | internal/admin/component_type_inference.go:42-87 | a forwarding chain in reverse order still changes in each of the first n - 1 further passes and is fully typed after n |
| `InferenceWitnesses.ChainsExist` | internal/admin/component_type_inference.go:42-87 | such chains exist at every length |
| `InferenceWitnesses.NullSeedWitness` | internal/admin/component_type_inference.go:90-237 | one null-seeded data member, written once, is not at a fixed point after the one pass the bound allows |
| `StaticChain.StaticExpressionSegments` | internal/admin/component_type_inference.go:1212-1292 | the cursor loop reads names, assertions, calls and indices as the grammar says and stops at the first character it cannot read |
| `StaticChain.NextSegment` | internal/admin/component_type_inference.go:1217-1291 | one turn of that loop |
| `StaticChain.ChainRoundTrip` | internal/admin/component_type_inference.go:1212-1292 | a printed chain, with non-null assertions, plain and optional calls and indices whose text is balanced, parses to its own segments and is consumed to the end |
| `StaticChain.IndexReadsIff` | internal/admin/component_type_inference.go:1229-1240 | an index is read back exactly when its text is balanced |
| `StaticChain.PathRoundTrip` | internal/admin/static_member.go:116-138 | the dot-join of any identifiers parses back to exactly these names |
| `SelectorText.UnwrapParentheses` | internal/admin/component_type_inference.go:1056-1063 | the loop strips matching outer parentheses and white space until none are left |
| `SelectorText.StaticDynamicComponentString` | internal/admin/dynamic_component.go:176-204 | the scan accepts exactly quoted texts without their own quote, escapes, line breaks or interpolation |
| `SelectorText.SplitDynamicComponentConditional` | internal/admin/dynamic_component.go:206-239 | the scan finds the top-level question mark and its colon past nested conditionals, `?.` and `??` |
| `SelectorText.SplitTopLevelOperator` | internal/admin/component_type_inference.go:1081-1103 | the scan splits at the first top-level operator with both sides non-empty |
| `SelectorSyntax.PrintContained` | internal/admin/dynamic_component.go:206-239 | every printed expression is balanced, and the operands of operators keep the scanners at top level |
| `SelectorSyntax.ConditionalSplits` | internal/admin/dynamic_component.go:206-239 | a printed conditional is split into exactly its two branches, however they nest |
| `SelectorSyntax.NoConditional` | internal/admin/dynamic_component.go:206-239 | nothing else that prints is split as a conditional |
| `SelectorReading.CorePrint` | internal/admin/dynamic_component_resolution.go:245-247 | surrounding white space and parentheses are stripped to the expression inside them |
| `SelectorReading.StringReads` | internal/admin/dynamic_component.go:176-204 | exactly the non-empty string literals are read as strings |
| `SelectorReading.ConstantReads` | internal/admin/dynamic_component_resolution.go:256-259 | exactly null, undefined and false are read as constants |
| `SelectorReading.ReferenceReads` | internal/admin/component_type_inference.go:1163-1173 | a reference is read as the one member it names, called or not, with or without `this.`, a non-null assertion and an optional call |
| `SelectorReading.CoalesceReads` | internal/admin/component_type_inference.go:1092-1103 | `??` splits into exactly its operands |
| `SelectorReading.EitherReads` | internal/admin/component_type_inference.go:1092-1103 | the logical or splits into exactly its operands and shows no `??` |
| `SelectorResolver.AppendUniqueDynamicNames` | internal/admin/dynamic_component_resolution.go:560-573 | names are appended once each, in first-occurrence order, without the empty name |
| `SelectorResolver.AppendUniqueMember` | internal/admin/dynamic_component_resolution.go:560-573 | exactly the old names and the non-empty additions are listed |
| `SelectorResolver.DynamicComponentNamesFromType` | internal/admin/dynamic_component_resolution.go:525-545 | the literals of a union type, complete only if nothing else is in it |
| `SelectorResolver.DynamicSelector.ResolveDynamicComponentNames` | internal/admin/dynamic_component_resolution.go:240-379 | the recursion terminates, answers what the specification says and restores `resolving` |
| `SelectorResolver.DynamicSelector.ResolveExpression` | internal/admin/dynamic_component_resolution.go:245-286 | the cases of an expression: literal, constant, conditional, operators, registry, reference |
| `SelectorResolver.DynamicSelector.FollowReference` | internal/admin/dynamic_component_resolution.go:287-314 | local components first, then the member of that name, unless it is being resolved already |
| `SelectorResolver.DynamicSelector.FollowMember` | internal/admin/dynamic_component_resolution.go:315-378 | the type shortcut, then data with its assignments, then the source, then the returns |
| `SelectorResolver.DynamicSelector.FollowAssignments` | internal/admin/dynamic_component_resolution.go:318-340 | data collects its initial value and every write, and is never complete |
| `SelectorResolver.DynamicSelector.FollowReturns` | internal/admin/dynamic_component_resolution.go:349-365 | all return expressions must be found, and complete, and all returns known |
| `SelectorNames.AnswersReach` | internal/admin/dynamic_component_resolution.go:240-379 | the names of every answer, complete or not, are exactly the literals at the leaves the selector reaches, and it is found and complete exactly when something is found and nothing is lost on the way |
| `SelectorNames.WrittenShows` | internal/admin/dynamic_component_resolution.go:325-342 | for data a name is listed exactly when the initial value or some write of it lists it, and something is found exactly when one of them finds something |
| `SelectorNames.ReturnsShow` | internal/admin/dynamic_component_resolution.go:344-362 | for a method exactly the names of its returns are listed, complete exactly if each is known |
| `SelectorNames.DefaultShows` | internal/admin/dynamic_component_resolution.go:363-376 | for a prop the names of its first default expression |
| `SelectorNames.TypeNamesIff` | internal/admin/dynamic_component_resolution.go:525-558 | a type gives names exactly when it consists of named literals and nothing to render, and then exactly the literals |
| `SelectorNames.MeantIsFirst` | internal/admin/dynamic_component_resolution.go:305-314 | a reference means the first member of its name, called exactly if that is a method |
| `SelectorNames.LocalIsFirst` | internal/admin/dynamic_component_resolution.go:291-304 | and before it the first local component whose symbol or tag it is, or spells in kebab case |
| `SelectorNames.NamesInOrder` | internal/admin/dynamic_component_resolution.go:560-573 | names already listed stay in front and new ones follow in the order they are first met |
| `SelectorResolver.DynamicSelector.FollowDefault` | internal/admin/dynamic_component_resolution.go:366-377 | a property's default suggests names but is never complete |
| `SelectorTypes.TypeCovers` | internal/admin/dynamic_component_resolution.go:525-545 | names taken complete from a type cover every value of the type, where its quoted alternatives are literals |
| `SelectorTypes.TypeCoversIff` | internal/admin/type_index.go:912-919 | and only there: for every type with complete names, the names cover its values exactly when no quoted alternative holds a hole, an escape or a quote of its own |
| `SelectorTypes.OneNameIff` | internal/admin/dynamic_component_resolution.go:525-545 | one name is right for every value a type allows exactly when each alternative is that name or nothing to render |
| `SelectorSoundness.CompleteAnswersAreSound` | internal/admin/dynamic_component_resolution.go:240-379 | selector soundness: when the analysis answers complete, every evaluation of the expression (sections 13.13 and 13.14 of ECMA-262) yields a listed name, null, undefined or false, where members fit their indexed types and sources, types are plain, members that share a local component's name hold it, and no expression names a parameter, local, loop or slot variable like a member |
| `SelectorSoundness.Sound` | internal/admin/dynamic_component_resolution.go:240-379 | the same for every guard, every script or template context and any surrounding white space, by induction over the analysis |
| `SelectorWitnesses.NullSeedSelector` | internal/admin/dynamic_component_resolution.go:315-340 | a null-seeded data member is answered complete and nameless by the type shortcut, whatever it holds; without the type it is open |
| `SelectorWitnesses.UntypedDataIsOpen` | internal/admin/dynamic_component_resolution.go:318-340 | untyped data is never complete |
| `SelectorSoundness.ApartAgree` | internal/admin/dynamic_component_resolution.go:291-304 | it is enough that no member bears a local component's name |
| `SelectorWitnesses.PatternFamily` | internal/admin/type_index.go:912-919 | a member typed by a template literal is answered complete by the text between the backticks, and some value of the type is not listed exactly when that text has a hole |
| `SelectorWitnesses.PatternWitness` | internal/admin/type_index.go:912-919 | the type `sw-${string}` in backticks admits sw-card, which is not listed |
| `SelectorWitnesses.LocalAnswer` | internal/admin/dynamic_component_resolution.go:291-304 | a name or tag of a local component is answered complete by that component, whatever member bears the name, and behind `this.` too |
| `SelectorWitnesses.SharedNamesAgreeIff` | internal/admin/dynamic_component_resolution.go:291-304 | those answers are right in every moment exactly when the members that share a local component's name hold that component or nothing |
| `SelectorWitnesses.SharedNameIff` | internal/admin/dynamic_component_resolution.go:291-304 | as far as the index can tell: the local answer is right for every value the member's type allows exactly when the type allows nothing but that component |
| `SelectorWitnesses.SharedNameWitness` | internal/admin/dynamic_component_resolution.go:291-304 | data swButton of type 'sw-card' beside the local component sw-button is answered sw-button |
| `SelectorWitnesses.ShadowedNameWitness` | internal/admin/dynamic_component_resolution.go:349-365 | a bare name returned by a method is resolved as the template member of that name, so a parameter of the same name is answered by the property |
| `SelectorWitnesses.HeadIsTakenForTest` | internal/admin/dynamic_component.go:206-239 | whatever stands in front of a top-level question mark is taken for a test |
| `SelectorWitnesses.ArrowWitness` | internal/admin/dynamic_component_resolution.go:260-271 | an arrow function with a conditional body is answered, completely, as if it were the conditional |
| `StaticSelector.StaticCandidates` | internal/admin/dynamic_component.go:130-165 | the inline scan, with the loop that moves expression and base, collects the candidates of the selector's conditional structure |
| `StaticSelector.CandidatesIn` | internal/admin/dynamic_component.go:144-164 | a literal is one candidate, a conditional both branches at their offsets, anything else makes the scan incomplete |
| `StaticSelector.ExactIsFaithful` | internal/admin/dynamic_component.go:130-239 | the true ranges of the names are in bounds, spell the names, increase and are disjoint |
| `StaticSelector.RangesExactIff` | internal/admin/dynamic_component.go:130-174 | the scan's ranges are the true ranges exactly when no trim removes leading characters that the offset does not count |
| `StaticSelector.CommonRangesFaithful` | internal/admin/dynamic_component.go:130-174 | range fidelity: with space, tab, CR and LF as the only white space every range minus base spells its name, in bounds, increasing and disjoint |
| `StaticSelector.FormFeedWitness` | internal/admin/dynamic_component.go:167-174 | a leading form feed shifts the range by one |
| `StaticSelector.ScanRefinesAnalysis` | internal/admin/dynamic_component.go:130-165 | whenever the inline scan is complete, the general analysis finds the same names, once each in first-occurrence order, and is complete |
| `ReturnFlow.TopLevelReturnFlow.Observe` | internal/admin/value_type.go:573-599 | the token step of the top-level return automaton |
| `ReturnFlow.TerminalSwitchFlow.Observe` | internal/admin/value_type.go:622-667 | the token step of the terminal switch automaton |
| `ReturnFlow.ControlFlowCompleteness.Visit` | internal/admin/value_type.go:544-565 | trivia is skipped, depth counts braces, both automata see every other token |
| `ReturnFlow.MethodReturnsComplete` | internal/admin/value_type.go:523-536 | the token loop accepts a block exactly when one of the automata does, and a method without a block exactly when it is an arrow function whose text returns one expression |
| `MethodReturns.ArrowAcceptedIff` | internal/admin/value_type.go:430-445 | an arrow function with an expression body is taken to return always, exactly if the first arrow of its text is not followed by a brace, and always if its parameters hold no arrow |
| `MethodReturns.AcceptedMethodReturns` | internal/admin/value_type.go:523-538 | no call of an accepted method completes without returning or throwing: an expression body always, a block if its branches are braced and no nested break leaves a switch |
| `ReturnFlow.TriviaIgnored` | internal/admin/value_type.go:544-549 | white space and comments never matter |
| `TokenPieces.BalancedIsPieces` | internal/admin/value_type.go:538-565 | every token list with balanced braces is made of tokens and brace groups, so what is proved of these is proved of every body |
| `TokenPieces.VisitPieces` | internal/admin/value_type.go:538-672 | outside groups both automata can be read piece by piece: the first skips groups, the second takes the first group behind a `switch` for its body |
| `TokenPieces.ReturnAcceptsIff` | internal/admin/value_type.go:573-603 | the return automaton accepts exactly the bodies that show, outside groups, a word return behind which no code follows a semicolon, whatever the word belongs to |
| `TokenPieces.WordsAcceptedIff` | internal/admin/value_type.go:636-660 | the words of a switch body are accepted exactly when one is default and every case or default comes to a return or throw before it comes to a break |
| `TokenPieces.SwitchAcceptsIff` | internal/admin/value_type.go:622-672 | the switch automaton accepts exactly the bodies whose last word switch is followed by a group with accepted words and then by nothing but semicolons |
| `TokenPieces.AcceptsIff` | internal/admin/value_type.go:523-672 | so exactly these bodies are taken to return always |
| `StatementFlow.StatementReturns` | internal/admin/value_type.go:573-603 | what any statement without names, braced or not and with or without its semicolons, does to the return automaton |
| `StatementFlow.StatementReadsReturn` | internal/admin/value_type.go:573-603 | with its semicolons: complete afterwards exactly if its last word belongs to a return statement, or it was complete before and the statement shows no token |
| `StatementFlow.StatementReadsSwitch` | internal/admin/value_type.go:622-672 | what any statement without names does to the switch automaton: complete afterwards exactly if it ends in an accepted switch, or it was complete before and the statement is empty |
| `StatementFlow.SwitchRead` | internal/admin/value_type.go:622-667 | after a switch statement the second automaton is closed, and complete exactly if the subject holds no braces and the words of the clauses, names and all, are accepted |
| `StatementFlow.SwitchNormalIff` | internal/admin/value_type.go:622-672 | an accepted switch without names has a default and completes normally (section 14.12 of ECMA-262) exactly when a clause can be left by a break or the last clause can be run through |
| `StatementFlow.BracedSwitchNormalIff` | internal/admin/value_type.go:622-672 | with braced branches, exactly when a clause can be left by a break |
| `StatementFlow.AcceptedDecides` | internal/admin/value_type.go:523-672 | every accepted body, names and all, has a statement that decides: the one with the last word return, or the last one, with the group taken for a switch body |
| `StatementFlow.NamelessAcceptsIff` | internal/admin/value_type.go:523-672 | without names, wherever semicolons are left out, a body is accepted exactly when some statement holds the last return and no code behind its word follows a semicolon, or the body ends in an accepted switch |
| `StatementFlow.NamelessFallsOffIff` | internal/admin/value_type.go:523-672 | return completeness, exactly, for bodies without names, wherever they leave out semicolons: an accepted body falls off its end if and only if the statement that decides slips and the others, overlooked code included, can be passed; a return never slips, an accepted switch only by a break or through its last clause, an unbraced branch or loop always, one of two branches if either can be passed |
| `StatementFlow.OrdinaryAcceptsIff` | internal/admin/value_type.go:523-672 | with its semicolons too, a body is accepted exactly when its last token belongs to a return statement or closes an accepted switch |
| `StatementFlow.OrdinaryFallsOffIff` | internal/admin/value_type.go:523-672 | then only blocks and empty statements follow the statement that decides, and the body falls off its end if and only if that one slips and the others can be passed |
| `StatementFlow.AcceptedNeverFallsOff` | internal/admin/value_type.go:523-672 | return completeness: an accepted body without names, with braced branches and no nested break out of a switch never falls off its end, with or without its semicolons |
| `StatementFlow.ReturnWordAccepts` | internal/admin/value_type.go:573-603 | whatever precedes it, a word return with no semicolon but the last behind it is enough |
| `StatementFlow.UnbracedFamily` | internal/admin/value_type.go:573-599 | every body that ends in an unbraced `if` with a return is accepted, and falls off its end exactly when its last statement can be reached |
| `StatementFlow.NoSemicolonFamily` | internal/admin/value_type.go:573-599 | behind an unbraced return any code without semicolons is overlooked: every such body is accepted, and falls off its end exactly when the rest can be passed |
| `StatementFlow.NamedReturnFamily` | internal/admin/value_type.go:573-603 | every body whose last expression names a property return is accepted, and falls off its end exactly when it can be reached |
| `StatementFlow.NamedDefaultFamily` | internal/admin/value_type.go:636-667 | a last switch without a default whose clauses name a property default in the right place is accepted, and is passed when no case matches |
| `StatementFlow.NamedReturnWitness` | internal/admin/value_type.go:573-603 | a body that only calls it.return() |
| `StatementFlow.NamedDefaultWitness` | internal/admin/value_type.go:636-667 | a switch with one case that reads m.default |
| `StatementFlow.NestedBreakWitness` | internal/admin/value_type.go:622-667 | a break inside the braces of an `if` leaves an accepted switch |
| `StatementFlow.LastClauseWitness` | internal/admin/value_type.go:622-667 | a last clause that ends in an unbraced `if` with a return is accepted and can be run through |
| `TypeResolver.MergeTwigVueMembers` | internal/admin/indexer_twig_vue.go:1407-1446 | the merge of member lists: overlay by name, then sorted |
| `TypeResolver.UnionNames` | internal/admin/type_index.go:1327-1369 | a union shows exactly the names of its shapes |
| `TypeResolver.MergedNames` | internal/admin/indexer_twig_vue.go:1407-1446 | a merge shows exactly the names of both lists |
| `TypeResolver.KeyNamesAre` | internal/admin/value_type.go:948-970 | the keys of `Pick` and `Omit` are the literal or the literals of the union, and known exactly if there is one and nothing else but nullish branches |
| `TypeMembers.SelectMember` | internal/admin/type_resolver.go:200-233 | `Pick` shows the members named by known keys and `Omit` the others |
| `TypeMembers.WrapMember` | internal/admin/type_resolver.go:53-73 | `Partial` makes every member optional and `Required` none |
| `TypeMembers.UnionMember` | internal/admin/type_index.go:1327-1369 | a member of a union is required exactly if every branch has it and requires it |
| `TypeMembers.MergeShows` | internal/admin/indexer_twig_vue.go:1407-1446 | a merge shows the overlay's member of a name, or else the base's |
| `TypeMembers.DeclarationShows` | internal/admin/type_resolver.go:235-305 | a declaration shows its own member of a name; else its first parent's that has one; else its alias's |
| `TypeMembers.IntersectionShows` | internal/admin/type_resolver.go:118-132 | of an intersection the last branch that shows a name decides |
| `TypeMembers.EntityShows` | internal/admin/type_index.go:924-979 | an entity shows the run-time members; else those of the last file that declares the name; else those of the first file whose parents have it |
| `TypeResolution.UnionVueTypeMembers` | internal/admin/type_index.go:1327-1369 | the presence-counting loops: every name once, optional if optional or absent anywhere, sorted |
| `TypeResolution.VueTypeResolver.ResolveType` | internal/admin/type_resolver.go:16-51 | resolve terminates over a finite closed set of calls, by the keys not in `seen` and then by size, and restores `seen` |
| `TypeResolution.VueTypeResolver.ResolveSubstituted` | internal/admin/type_resolver.go:16-51 | the order of the cases, after the substitution |
| `TypeResolution.VueTypeResolver.ResolveUnion` | internal/admin/type_resolver.go:75-103 | null branches are dropped, every other branch re-enters resolve with the same substitution |
| `TypeResolution.VueTypeResolver.ResolveIntersectionOf` | internal/admin/type_resolver.go:118-132 | branches merge, and all must be complete |
| `TypeResolution.VueTypeResolver.ResolveDeclared` | internal/admin/type_resolver.go:235-285 | the key is set in `seen`, aliases and inherited types are resolved, and the key is removed on every return |
| `TypeResolution.VueTypeResolver.ResolveEntityType` | internal/admin/type_index.go:924-979 | the entity's interfaces from every file, merged |
| `TypeUnfolding.UnfoldMore` | internal/admin/type_resolver.go:16-285 | an unfolding that succeeds does not change with more fuel |
| `TypeUnfolding.SubstituteAgreesIff` | internal/admin/type_index.go:1287-1311 | two substitutions make the same of a type exactly when its free names mean the same in both |
| `TypeUnfolding.LeakIff` | internal/admin/type_resolver.go:287-305 | one step of the parameter leak: a parent or alias is read as with the declaration's own parameters exactly when every free name that only the callers bound stands for itself |
| `TypeUnfolding.ScopesAgree` | internal/admin/type_resolver.go:235-305 | where the resolver's calls meet no name that only the callers bound, unfolding with inherited substitutions is unfolding with lexical scope |
| `TypeUnfolding.HygienicIsScoped` | internal/admin/type_resolver.go:235-305 | it is enough that each declaration mentions, of all parameter names, only its own, and that calls supply their arguments |
| `TypeCompleteness.CompleteIsUnfolded` | internal/admin/type_resolver.go:16-285 | a complete answer means that the guard-free unfolding succeeds, so no cycle was cut and every declaration was found and closed, and the member names are exactly the unfolding's, however much further it unfolds; names mean what the resolver takes them for |
| `TypeCompleteness.CompleteIsEarned` | internal/admin/type_resolver.go:16-305 | Complete is earned: where no call meets a name that only its callers bound, a complete answer has exactly the member names of the lexically scoped unfolding |
| `TypeConverse.CompleteIff` | internal/admin/type_resolver.go:16-305 | and the other way round: an answer is complete exactly if the type unfolds, where calls with the same key unfold alike |
| `TypeConverse.CompleteExactly` | internal/admin/type_resolver.go:16-305 | where no declaration met mentions a name that only its callers bound, an answer is complete exactly if the unfolding succeeds in which every declaration sees its own parameters only |
| `TypeNames.NamesIff` | internal/admin/type_resolver.go:16-305 | every answer, complete or not, shows exactly the names that some unfolding shows: the cuts of the cycle guard lose none, where calls with the same key show alike |
| `TypeNames.NamesExactly` | internal/admin/type_resolver.go:16-305 | so it is wherever every key of the guard stands for one call |
| `TypeCompleteness.ResolveEarned` | internal/admin/type_resolver.go:16-285 | the agreement under any substitution and any guard |
| `TypeCompleteness.EntityEarnedIff` | internal/admin/type_index.go:924-979 | a complete answer for an entity, with everything its interfaces inherit, is earned exactly when none of its own interfaces is open |
| `TypeWitnesses.SelfGrowingHasNoUniverse` | internal/admin/type_resolver.go:235-285 | a self-growing generic alias fits into no finite set of calls, so its keys never repeat |
| `TypeWitnesses.UnstableReenters` | internal/admin/type_resolver.go:75-103 | a substitution whose replacement mentions its own key sends a union back to the same question |
| `TypeWitnesses.UnstableNeverUnfolds` | internal/admin/type_resolver.go:75-103 | and so never unfolds, with whatever fuel |
| `TypeWitnesses.LeakWitness` | internal/admin/type_resolver.go:235-305 | the resolver's complete answer for an interface whose parent mentions the caller's parameter is wrong: it names the argument's member where the lexical unfolding names the interface's |
| `CallScanner.TwigVueCallBefore` | internal/admin/vue_scope_calls.go:366-404 | the backward loops find the callable name, its offsets and whether it is a filter |
| `CallScanner.PositionInLiteralOrComment` | internal/admin/vue_scope_calls.go:435-520 | the position test's loop |
| `CallScanner.TwigVueCallScanner.Consume` | internal/admin/vue_scope_calls.go:73-112 | one step of the scanner, with the position to go on at |
| `CallScanner.TwigVueCallScanner.ConsumeTemplateText` | internal/admin/vue_scope_calls.go:140-154 | a step in template text: escapes, the end of the template, the start of a `${}` |
| `CallScanner.TwigVueCallScanner.ConsumeCode` | internal/admin/vue_scope_calls.go:175-202 | a character of code: delimiters, commas and the braces of templates |
| `CallScanner.TwigVueCallScanner.ActiveCall` | internal/admin/vue_scope_calls.go:61-71 | after the whole prefix the innermost frame with a call is returned |
| `CallScanner.AgreeIff` | internal/admin/vue_scope_calls.go:61-202 | scanner and position test keep the same quote, comment and template state all the way exactly when no closing brace of a template's code meets another open delimiter |
| `CallScanner.CleanAgrees` | internal/admin/vue_scope_calls.go:435-520 | on such a prefix both end in the same state |
| `CallNesting.ActiveCallIsInnermost` | internal/admin/vue_scope_calls.go:61-202 | at any position of properly nested code, also inside a quote, a comment or template text, the scanner names the innermost unclosed parenthesis with a callable in front, counts exactly the commas that stand directly in it, and knows whether it stands in a literal or comment |
| `CallNesting.PiecesReach` | internal/admin/vue_scope_calls.go:73-202 | nested code leaves the scanner's state as it was, its own commas counted on the frame on top and those nested in it not |
| `CallPrefix.EveryPrefix` | internal/admin/vue_scope_calls.go:61-520 | every prefix of properly nested code is such a position, and there scanner and position test agree |
| `CallCallee.CalleeIsPlain` | internal/admin/vue_scope_calls.go:366-404 | the callee is a matter of the plain characters directly in front of the parenthesis, unless a line comment stands before them |
| `CallCallee.InnermostIsNamed` | internal/admin/vue_scope_calls.go:61-71 | without such comments the call found is the innermost one whose plain characters in front of its parenthesis end in a name |
| `CallCallee.CalleeReads` | internal/admin/vue_scope_calls.go:366-404 | a name in front of a parenthesis is read back, with white space and an optional call between them, and taken for a filter exactly behind a single bar |
| `CallCallee.CommentIgnoredIff` | internal/admin/vue_scope_calls.go:366-404 | what follows a line comment is read on its own, whatever the comment says, exactly when a name is found behind it with something in front of it, or something that is no name |
| `CallCallee.CommentWitness` | internal/admin/vue_scope_calls.go:366-404 | the last word of a line comment is taken for the callee |
| `CallNesting.StrayBraceWitness` | internal/admin/vue_scope_calls.go:175-202 | after a brace that closes a `${}` over an open parenthesis they disagree |
| `VueBindings.TwigVueBindingsAtOffset` | internal/admin/vue_scope_bindings.go:134-167 | visibility filter, stable sort by falling scope length, and the fold that overwrites through the positions map |
| `VueBindings.InnermostWins` | internal/admin/vue_scope_bindings.go:134-167 | the result names every visible name once, and under it exactly the binding with the shortest scope, ties going to the later source position |
| `VueBindings.NestedMeansInnermost` | internal/admin/vue_scope_bindings.go:134-167 | where visible scopes nest, the binding found lies within the scope of every other visible one of its name |
| `VueBindings.NeighboursWitness` | internal/admin/vue_scope_bindings.go:134-140 | scopes include both ends, so two neighbours that touch are both visible there and the shorter wins |
| `VueBindings.TwigVueBindingIdentifierIsLocal` | internal/admin/usage_twig_helpers.go:135-158 | the membership test holds exactly for the names of the result and for names declared at the position outside their own scope |
| `VueBindings.IsNamedIff` | internal/admin/vue_scope_bindings.go:134-167 | a name is in the result exactly when some visible binding bears it |

## Left out

- Parsers and syntax trees (JavaScript, Twig, Vue): tokens, expressions, scopes and ranges are inputs.
- The database, mutations and the file system: the persisted index is a value, errors of its reads do not occur.
- The gate that may serialise persistent indexing: its code is in other packages, so indexing is only shown as a counterexample.
- Live `.vue` documents, live templates and script-setup enrichment: only the JavaScript and TypeScript document maps are modelled.
- Path normalisation (`filepath.Clean` and import resolution): paths are compared as given.
- The content-management registry and router views as name sources: an arbitrary table of names; the soundness theorem asks that it lists what its expressions evaluate to.
- Built-in shapes (stores, repositories, JavaScript built-ins, template globals): constant tables without a hard property.
- Collectors of usages, symbols and registrations, line and UTF-16 positions, documentation and deprecation texts: carried as plain fields or not at all.
- Characters: texts are sequences of bytes; white space beyond ASCII and multi-byte identifiers are not told apart.
- Offsets of selectors, chains and calls are unbounded integers; only the scope lengths of bindings wrap around at 32 bits.
- `twigVueCallArgumentRanges` and `TwigVueCalls`: the same state machine over a finished text, which would add no harder property.
- Template slots and their scopes, event and prop contracts, comparable type kinds: case analysis over data the model does not hold.
- Members every Vue instance has (`$emit`, `$props`): chains that start from one have a fixed answer.
- TypeText.MergeTwoSteps: one direction only, because branches that are not separable can still merge to the same text by coincidence; SplitMergedUnion states the exact condition for what splitting finds.
- TypeValues.NullishBranchesIff: asks that the kept branches of the left operand leave nothing open but the last, because they are merged one by one, and a line comment in one of them swallows others.
- TypeValues.ExpressionInhabits: asks of the leaves, which the index answers, that their types admit their values.
- SelectorSoundness.CompleteAnswersAreSound: expressions are those of the modelled grammar, with every other unit as a spelled reference or as opaque text that holds no top-level question mark, colon or operator; HeadIsTakenForTest covers what happens when it does.
- SelectorReading.ReferenceReads: chains of more than one member are not references in the grammar, as the analysis does not follow them.
- TypeResolution.VueTypeResolver.ResolveType: asks for a finite closed set of calls with stable substitutions, because without either the recursion need not end.
- VueBindings.NestedMeansInnermost: asks that the two scopes nest, because scopes that only touch do not.
- EpochProtocol.CacheIsCurrent: one direction only, because a stale cut can leave the right value when the parent adds nothing; populating, mixing and enriching one registration each read the documents in one step.
- InferenceConvergence.InferenceConverges: one direction only, because a component with a member that loses its seed can still settle in time when its dependencies are shallow; RankSettlesIff and OnScheduleIff are exact rank by rank.
- StatementFlow.NamelessFallsOffIff: asks that no property outside groups is named like a word of the automata, because such a name makes any statement that bears it decide, also one that can always be passed, as the two families of named bodies show. It knows no labels; TokenPieces.AcceptsIff, about the tokens alone, covers bodies with labels too.
- SelectorTypes.TypeCovers: an alternative that is neither a literal, a pattern nor a constant may hold anything; a pattern admits the strings that start as it does.
- TypeCompleteness.CompleteIsEarned: types are trees, so neither the precedence of a union substituted as text into an array or a wrapper nor the renaming of properties and quoted words by a parameter of the same name is captured (TypeSubstitution.PropertyKeptIff says when the latter happens); aliases are as the parser builds them, with either a body or parents.
- TypeCompleteness.EntityEarnedIff: asks that no interface of any other entity is open, because the answer says nothing about which of them were merged in.
- TypeResolver.MergeTwigVueMembers: members are names and whether they are optional, without the types, documentation and definition fields that the overlay inherits.
- TypeResolution.UnionVueTypeMembers: members are names and whether they are optional, without merged types and documentation.
- CallNesting.ActiveCallIsInnermost: regular expression literals are not told from division, as in the source.
- ComponentIndex.AdminComponentIndexer.UpdateLiveDocument: the branch for `.vue` files and the cleaning of the path are not modelled.
