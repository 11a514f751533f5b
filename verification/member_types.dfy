/** The types the inference gives to members, from their sources and their writes
    (internal/admin/component_type_inference.go:36-178 and 239-263, template_members.go). */
module MemberTypes {
  import opened AdminModel
  import opened TextScan
  import opened TypeText
  import opened CallableType
  import StaticChain
  import opened MemberInference
  import opened TypeValues

  // ---- Writes.

  lemma {:induction false} WritesAre(assignments: seq<Assignment>, name: string)
    ensures forall w :: w in Writes(assignments, name) <==>
                        w in assignments && w.target == name && name != "" && w.expression != ""
  {
    if assignments != [] {
      WritesAre(assignments[..|assignments| - 1], name);
      assert assignments == assignments[..|assignments| - 1] + [assignments[|assignments| - 1]];
    }
  }

  /** What a write is read as: in its own file, or in the member's if it names none. */
  function WriteAnswer(index: TypeIndex, c: Component, w: Assignment, own: string): Answer {
    Resolve(index, c, Parsed(index, w.expression), if w.filePath == "" then own else w.filePath)
  }

  ghost predicate WriteType(index: TypeIndex, c: Component, w: Assignment, own: string, t: string) {
    t != "" && WriteAnswer(index, c, w, own).found && WriteAnswer(index, c, w, own).resolved.resolvedType == t
  }

  lemma {:induction false} EvidenceTypes(index: TypeIndex, c: Component, writes: seq<Assignment>, own: string)
    ensures forall t :: t in WriteEvidence(index, c, writes, own).types <==>
                        exists w :: w in writes && WriteType(index, c, w, own, t)
  {
    hide Resolve;
    if writes != [] {
      var init, w := writes[..|writes| - 1], writes[|writes| - 1];
      EvidenceTypes(index, c, init, own);
      assert writes == init + [w];
      var before, types := WriteEvidence(index, c, init, own).types, WriteEvidence(index, c, writes, own).types;
      forall t ensures t in types <==> t in before || WriteType(index, c, w, own, t) {
        assert WriteAnswer(index, c, w, own) == Resolve(index, c, Parsed(index, w.expression), if w.filePath == "" then own else w.filePath);
      }
      assert forall x :: x in writes <==> x in init || x == w;
    }
  }

  /** A data member the writes can type: untyped, or typed by nothing that says anything. */
  predicate FlowTypes(index: TypeIndex, c: Component, m: Member) {
    && m.kind.DataMember? && Writes(c.assignments, m.name) != []
    && (m.memberType == "" || WeakSeed(InitialType(index, c, m)) || WeakSeed(m.memberType))
  }

  /** The branches its type then has besides placeholders: those of the types of its writes and of
      its initial type. */
  lemma FlowedBranches(index: TypeIndex, c: Component, m: Member, b: string)
    requires FlowTypes(index, c, m) && b != ""
    requires var types := WriteEvidence(index, c, Writes(c.assignments, m.name), TypeContext(m, c)).types;
             && SaysSomething(InitialType(index, c, m), types)
             && Separable(WrittenBranches(InitialType(index, c, m), types))
    ensures b in Split(Flowed(index, c, m).memberType, '|') <==>
            && !Placeholder(b)
            && (b in Split(InitialType(index, c, m), '|')
                || exists w, t :: w in c.assignments && w.target == m.name != "" && w.expression != ""
                                  && WriteType(index, c, w, TypeContext(m, c), t) && b in Split(t, '|'))
  {
    hide Split, Resolve, Placeholder, Separable, TypeContext, InitialType, WriteEvidence;
    var own := TypeContext(m, c);
    var writes := Writes(c.assignments, m.name);
    var types, initialType := WriteEvidence(index, c, writes, own).types, InitialType(index, c, m);
    AssignmentBranchesIff(initialType, types);
    assert Flowed(index, c, m).memberType == MergeAssignmentTypes(initialType, types);
    WritesAre(c.assignments, m.name);
    EvidenceTypes(index, c, writes, own);
    RealAre(UnionBranches(types + [initialType]));
    MergedOrder(types + [initialType]);
    PlacesOf(types, initialType, b);
  }

  lemma PlacesOf(types: seq<string>, last: string, b: string)
    ensures (exists i, k :: At(types + [last], i, k, b)) <==>
            b in Split(last, '|') || exists t :: t in types && b in Split(t, '|')
  {
    hide Split;
    var all := types + [last];
    if i, k :| At(all, i, k, b) {
      assert i < |types| ==> all[i] in types;
    }
    if b in Split(last, '|') {
      var k :| 0 <= k < |Split(last, '|')| && Split(last, '|')[k] == b;
      assert At(all, |types|, k, b);
    }
    if t :| t in types && b in Split(t, '|') {
      var i :| 0 <= i < |types| && types[i] == t;
      var k :| 0 <= k < |Split(t, '|')| && Split(t, '|')[k] == b;
      assert At(all, i, k, b);
    }
  }

  // ---- Members.

  /** The first filled one of four paths: where the type comes from, where the member is declared,
      the component's definition and its registration. */
  lemma ContextIs(m: Member, c: Component, k: int)
    requires 0 <= k < 4
    ensures var paths := [m.typeContextPath, m.filePath, c.definitionPath, c.filePath];
            paths[k] != "" && (forall j :: 0 <= j < k ==> paths[j] == "") ==> TypeContext(m, c) == paths[k]
  {
    var paths := [m.typeContextPath, m.filePath, c.definitionPath, c.filePath];
    if paths[k] != "" && (forall j :: 0 <= j < k ==> paths[j] == "") {
      FirstFilled(paths, k);
    }
  }

  lemma {:induction false} FirstFilled(candidates: seq<string>, k: nat)
    requires k < |candidates| && candidates[k] != "" && forall j :: 0 <= j < k ==> candidates[j] == ""
    ensures FirstNonEmpty(candidates) == candidates[k]
  {
    if k > 0 {
      FirstFilled(candidates[1..], k - 1);
    }
  }

  /** A value is retyped if it has no type, or a source and no type that says anything; a method with
      a signature if that returns `unknown`. */
  lemma NeededIff(m: Member)
    requires !m.kind.MethodMember?
    ensures NeedsInferredType(m) <==>
            Trim(m.memberType) == "" || (m.sourceExpression != "" && forall b :: b in Split(m.memberType, '|') ==> !Says(b))
  {
    WeakSeedIff(m.memberType);
  }

  lemma MethodNeededIff(m: Member, inner: string, pad: string, mark: string, result: string)
    requires m.kind.MethodMember? && m.memberType == "(" + inner + ")" + pad + mark + result
    requires Enclosed(inner, '(', ')') && (forall c :: c in pad ==> StaticChain.JsSpace(c)) && (mark == "=>" || mark == ":")
    ensures NeedsInferredType(m) <==> Trim(result) == "unknown"
  {
    ReturnRead(inner, pad, mark, result);
    TrimIdempotent(result);
    TrimStarts("(" + inner + ")" + pad + mark, result);
  }

  lemma TrimStarts(a: string, b: string)
    requires a != "" && !IsSpace(a[0]) && !IsSpace(a[|a| - 1])
    ensures Trim(a + b) != ""
  {
    TrimRightBehind(a, b);
  }

  lemma NeededTakesReturn(m: Member)
    requires m.kind.MethodMember? && NeedsInferredType(m)
    ensures TakesReturn(m.memberType)
  {
    var t := Trim(m.memberType);
    if t != "" {
      assert Trim("") == "";
      assert StripParentheses(t) != t ==> Parenthesised(t);
    }
  }

  /** The type a member is given, in the file it is read in from then on, admits every value of its
      source: as its own type, or as what it returns. */
  lemma InferredInhabits(index: TypeIndex, c: Component, m: Member, means: Reading,
                         leaf: (TypeExpression, Value) -> bool, v: Value)
    requires m.sourceExpression != "" && NeedsInferredType(m) && Plain(means)
    requires var e, path := Parsed(index, m.sourceExpression), TypeContext(m, c);
             var answer := Resolve(index, c, e, path);
             && answer.found && answer.resolved.resolvedType != "" && answer.resolved.contextPath != ""
             && LeavesTyped(index, c, path, means, leaf, e) && NodesCovered(index, c, path, e)
             && Yields(leaf, e, v)
    ensures var inferred := Inferred(index, c, m);
            Inhabits(means, TypeContext(inferred, c),
                     if m.kind.MethodMember? then CallableReturnType(inferred.memberType) else inferred.memberType, v)
  {
    hide Resolve, Split, LeavesTyped, NodesCovered, Yields, Plain, CallableReturnType, CallableWithReturnType;
    var e, path := Parsed(index, m.sourceExpression), TypeContext(m, c);
    var resolved := Resolve(index, c, e, path).resolved;
    var inferred := Inferred(index, c, m);
    ExpressionInhabits(index, c, path, means, leaf, e);
    ContextIs(inferred, c, 0);
    assert inferred.typeContextPath == resolved.contextPath;
    if m.kind.MethodMember? {
      NeededTakesReturn(m);
      FilledReturns(m.memberType, resolved.resolvedType);
      SplitTrimmed(resolved.resolvedType);
    }
  }

  // ---- The member a chain starts from.

  /** The first prop of the name that satisfies the test. */
  ghost predicate FirstProp(props: seq<Prop>, name: string, test: Prop -> bool, k: int) {
    && 0 <= k < |props| && props[k].name == name && test(props[k])
    && forall j :: 0 <= j < k && props[j].name == name ==> !test(props[j])
  }

  ghost predicate NoProp(props: seq<Prop>, name: string, test: Prop -> bool) {
    forall j :: 0 <= j < |props| && props[j].name == name ==> !test(props[j])
  }

  predicate HasType(p: Prop) {
    p.propType != ""
  }

  /** A type of its own stays; otherwise the first typed prop of the name gives it. */
  lemma {:induction false} FilledType(m: Member, props: seq<Prop>, definitionPath: string, k: int)
    ensures m.memberType != "" || NoProp(props, m.name, HasType) ==>
              FillFromProps(m, props, definitionPath).memberType == m.memberType
    ensures m.memberType == "" && FirstProp(props, m.name, HasType, k) ==>
              FillFromProps(m, props, definitionPath).memberType == props[k].propType
    ensures FillFromProps(m, props, definitionPath).name == m.name
    ensures FillFromProps(m, props, definitionPath).openRuntimeShape == m.openRuntimeShape
    decreases |props|
  {
    if props != [] {
      var next := if props[0].name != m.name then m else FillFromProp(m, props[0], definitionPath);
      assert FillFromProps(m, props, definitionPath) == FillFromProps(next, props[1..], definitionPath);
      FilledType(next, props[1..], definitionPath, k - 1);
      if m.memberType == "" && FirstProp(props, m.name, HasType, k) && k > 0 {
        assert forall j :: 0 <= j < |props| - 1 ==> props[1..][j] == props[j + 1];
        assert FirstProp(props[1..], next.name, HasType, k - 1);
      }
    }
  }

  /** Index answers that admit what their query reads off any value of the root type. */
  ghost predicate IndexSound(index: TypeIndex, means: Reading, shows: (string, Value, Value) -> bool) {
    forall q, v, w ::
      q in index.chains && index.chains[q].found && Inhabits(means, q.rootContext, q.rootType, v) && shows(q.query, v, w) ==>
        Inhabits(means, index.chains[q].resolved.contextPath, index.chains[q].resolved.resolvedType, w)
  }

  /** What a chain reads off a value of its root member inhabits the type inferred for the chain. */
  lemma ChainInhabits(index: TypeIndex, c: Component, context: string, means: Reading,
                      shows: (string, Value, Value) -> bool, root: string, query: string, v: Value, w: Value)
    requires IndexSound(index, means, shows) && RootMember(c, root).Some? && shows(query, v, w)
    requires var m := RootMember(c, root).value; Inhabits(means, TypeContext(m, c), m.memberType, v)
    requires Resolve(index, c, Chain(root, query), context).found
    ensures var r := Resolve(index, c, Chain(root, query), context).resolved;
            Inhabits(means, r.contextPath, r.resolvedType, w) && r.openShape == RootMember(c, root).value.openRuntimeShape
  {
    hide Inhabits;
    var m := RootMember(c, root).value;
    var q := ChainQuery(m.memberType, TypeContext(m, c), query);
    assert q in index.chains && index.chains[q].found;
  }

  // ---- The file a written type is read in.

  /** The write resolves, to a type that is read in the file. */
  ghost predicate ReadIn(index: TypeIndex, c: Component, w: Assignment, own: string, path: string) {
    var answer := WriteAnswer(index, c, w, own);
    answer.found && answer.resolved.resolvedType != "" && answer.resolved.contextPath == path != ""
  }

  ghost predicate FirstRead(index: TypeIndex, c: Component, writes: seq<Assignment>, own: string, k: int, path: string) {
    && 0 <= k < |writes| && ReadIn(index, c, writes[k], own, path)
    && forall j, other :: 0 <= j < k ==> !ReadIn(index, c, writes[j], own, other)
  }

  /** The first write whose type has a file decides. */
  lemma {:induction false} EvidenceContext(index: TypeIndex, c: Component, writes: seq<Assignment>, own: string) returns (k: int)
    ensures var path := WriteEvidence(index, c, writes, own).contextPath;
            if path == "" then forall j, other :: 0 <= j < |writes| ==> !ReadIn(index, c, writes[j], own, other)
            else FirstRead(index, c, writes, own, k, path)
  {
    hide Resolve;
    k := 0;
    if writes != [] {
      var init, w := writes[..|writes| - 1], writes[|writes| - 1];
      k := EvidenceContext(index, c, init, own);
      assert WriteAnswer(index, c, w, own) == Resolve(index, c, Parsed(index, w.expression), if w.filePath == "" then own else w.filePath);
      if WriteEvidence(index, c, init, own).contextPath == "" {
        k := |init|;
      }
      assert forall j :: 0 <= j < |init| ==> init[j] == writes[j];
    }
  }

  /** A member retyped by its writes is read in the file of the first of them that has one. */
  lemma FlowedContext(index: TypeIndex, c: Component, m: Member)
    requires Flowed(index, c, m).typeContextPath != m.typeContextPath
    ensures exists k :: FirstRead(index, c, Writes(c.assignments, m.name), TypeContext(m, c), k, Flowed(index, c, m).typeContextPath)
    ensures Flowed(index, c, m).memberType != m.memberType
  {
    hide Resolve, WeakSeed, TypeContext, InitialType, MergeAssignmentTypes, FirstRead;
    var k := EvidenceContext(index, c, Writes(c.assignments, m.name), TypeContext(m, c));
  }

  // ---- What is open at run time.

  function Leftmost(e: TypeExpression): TypeExpression {
    match e case Nullish(left, _) => Leftmost(left) case _ => e
  }

  /** Of `a ?? b ?? ...` the first operand decides. */
  lemma {:induction false} OpenIsLeftmost(index: TypeIndex, c: Component, e: TypeExpression, context: string)
    ensures Resolve(index, c, e, context).resolved.openShape == Resolve(index, c, Leftmost(e), context).resolved.openShape
  {
    match e
    case Nullish(left, _) => OpenIsLeftmost(index, c, left, context);
    case _ =>
  }

  /** A write of an object literal whose type is found. */
  ghost predicate OpensShape(index: TypeIndex, c: Component, w: Assignment, own: string) {
    w.expression in index.objectLiterals
    && WriteAnswer(index, c, w, own).found && WriteAnswer(index, c, w, own).resolved.resolvedType != ""
  }

  lemma {:induction false} EvidenceOpen(index: TypeIndex, c: Component, writes: seq<Assignment>, own: string)
    ensures WriteEvidence(index, c, writes, own).openShape <==> exists w :: w in writes && OpensShape(index, c, w, own)
  {
    hide Resolve;
    if writes != [] {
      var init, w := writes[..|writes| - 1], writes[|writes| - 1];
      EvidenceOpen(index, c, init, own);
      assert writes == init + [w];
      assert WriteAnswer(index, c, w, own) == Resolve(index, c, Parsed(index, w.expression), if w.filePath == "" then own else w.filePath);
      assert WriteEvidence(index, c, writes, own).openShape <==>
             WriteEvidence(index, c, init, own).openShape || OpensShape(index, c, w, own);
      assert forall x :: x in writes <==> x in init || x == w;
    }
  }

  /** A member once open stays so; writes open one exactly if it can be typed by them and one of
      them is an object literal. */
  lemma FlowedOpen(index: TypeIndex, c: Component, m: Member)
    ensures Flowed(index, c, m).openRuntimeShape <==>
            m.openRuntimeShape
            || (FlowTypes(index, c, m)
                && exists w :: w in c.assignments && w.target == m.name != "" && w.expression != ""
                               && OpensShape(index, c, w, TypeContext(m, c)))
  {
    hide Resolve, WeakSeed, TypeContext, InitialType, OpensShape, MergeAssignmentTypes;
    WritesAre(c.assignments, m.name);
    EvidenceOpen(index, c, Writes(c.assignments, m.name), TypeContext(m, c));
  }

  lemma InferredOpen(index: TypeIndex, c: Component, m: Member)
    ensures m.openRuntimeShape ==> Inferred(index, c, m).openRuntimeShape
    ensures Inferred(index, c, m).openRuntimeShape && !m.openRuntimeShape ==>
              Resolve(index, c, Leftmost(Parsed(index, m.sourceExpression)), TypeContext(m, c)).resolved.openShape
  {
    OpenIsLeftmost(index, c, Parsed(index, m.sourceExpression), TypeContext(m, c));
  }

  // ---- Annotations.

  /** A data member whose type says something is only retyped by its writes if its initializer
      has no type that says something. */
  lemma AnnotationKeptIff(index: TypeIndex, c: Component, m: Member)
    requires m.kind.DataMember? && Writes(c.assignments, m.name) != [] && !WeakSeed(m.memberType)
    ensures var types := WriteEvidence(index, c, Writes(c.assignments, m.name), TypeContext(m, c)).types;
            var written := MergeAssignmentTypes(SourceType(index, c, m), types);
            Flowed(index, c, m).memberType == m.memberType <==>
            || (exists b :: b in Split(SourceType(index, c, m), '|') && Says(b))
            || !SaysSomething(SourceType(index, c, m), types) || written == m.memberType
  {
    hide Resolve, Split, Says, WeakSeed, SourceType, WriteEvidence, SaysSomething, MergeAssignmentTypes;
    WeakSeedIff(SourceType(index, c, m));
    AssignmentBranchesIff(SourceType(index, c, m), WriteEvidence(index, c, Writes(c.assignments, m.name), TypeContext(m, c)).types);
    SaysNotEmpty(m.memberType);
  }

  lemma SaysNotEmpty(value: string)
    requires !WeakSeed(value)
    ensures value != ""
  {
  }

  lemma WordSplits(word: string)
    requires word != "" && forall c :: c in word ==> 'a' <= c <= 'z'
    ensures Split(word, '|') == [word] && Branch(word)
  {
    LettersNoCut(word, NEUTRAL);
    assert word[0] in word && word[|word| - 1] in word;
    TrimmedFixed(word);
  }

  lemma MergeOneWrite(word: string)
    requires word != "" && (forall c :: c in word ==> 'a' <= c <= 'z') && word !in PLACEHOLDERS && !WeakEntry(word)
    ensures MergeAssignmentTypes("", [word]) == word
  {
    WordSplits(word);
    EmptySplit();
    AllBranchesOne(word);
    AllBranchesConcat([word], [""]);
    AllBranchesOne("");
    var all := [word] + [""];
    assert [word, ""][..1] == [word] && [word][..0] == [] && Distinct([word]) == [] + [word];
    assert UnionBranches(all) == [word];
    assert Without([word], PLACEHOLDERS) == [] + [word];
    assert word in [word];
    assert Join([word]) == word;
  }

  lemma StringSays()
    ensures !WeakSeed("string") && WeakSeed("")
  {
    WordSplits("string");
    assert "string" in Split("string", '|') && !WeakEntry("string");
    TrimmedFixed("string");
  }

  /** The failing case in the small: `label` is annotated `string` and has no initializer; one write
      of a number makes it a `number`. */
  lemma AnnotationLost(index: TypeIndex, c: Component, m: Member, w: Assignment)
    requires c.assignments == [w] && w.target == m.name != "" && w.expression in index.parsed && w.expression != ""
    requires index.parsed[w.expression] == Literal("number")
    requires m.kind.DataMember? && m.memberType == "string" && m.sourceExpression == ""
    ensures Flowed(index, c, m).memberType == "number"
  {
    hide Split, MergeAssignmentTypes, Trim;
    var none: seq<Assignment> := [];
    assert [w][..0] == none && Writes([w], m.name) == none + [w] == [w];
    StringSays();
    assert InitialType(index, c, m) == "";
    var own := TypeContext(m, c);
    assert WriteEvidence(index, c, none, own) == Evidence([], "", false);
    assert WriteAnswer(index, c, w, own).found && WriteAnswer(index, c, w, own).resolved.resolvedType == "number";
    assert WriteEvidence(index, c, [w], own).types == [] + ["number"] == ["number"];
    MergeOneWrite("number");
  }
}
