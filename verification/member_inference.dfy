/** Late type inference over an effective component: the in-place passes of
    enrichEffectiveComponentMemberTypes (internal/admin/component_type_inference.go). */
module MemberInference {
  import opened AdminModel
  import opened CallableType
  import opened TextScan
  import opened TypeText

  // ---- Types as the inference compares them.

  const PLACEHOLDERS := {"any", "unknown", "Array", "Object", "Array<any>", "Array<unknown>",
                         "ReadonlyArray<any>", "ReadonlyArray<unknown>"}

  predicate WeakEntry(entry: string) {
    entry == "" || entry == "null" || entry == "undefined" || entry in PLACEHOLDERS
  }

  /** isWeakVueFlowSeed: nothing but placeholders and nullish entries. */
  predicate WeakSeed(value: string) {
    Trim(value) == "" || forall e :: e in Split(Trim(value), '|') ==> WeakEntry(e)
  }

  function Without(entries: seq<string>, dropped: set<string>): seq<string> {
    if entries == [] then []
    else
      var init, e := Without(entries[..|entries| - 1], dropped), entries[|entries| - 1];
      if e in dropped then init else init + [e]
  }

  /** mergeVueAssignmentTypes: the branches written, then those of the initial type; nothing
      at all unless one of them says something. */
  function MergeAssignmentTypes(initialType: string, assignments: seq<string>): string {
    var alternatives := UnionBranches(assignments + [initialType]);
    if exists e :: e in alternatives && !WeakEntry(e) then Join(Without(alternatives, PLACEHOLDERS)) else ""
  }

  function WithoutNullish(branches: seq<string>): string {
    if branches == [] then ""
    else
      var init, e := WithoutNullish(branches[..|branches| - 1]), branches[|branches| - 1];
      if e == "" || e == "null" || e == "undefined" then init else MergeTypes([init, e])
  }

  function MergeNullish(left: string, right: string): string {
    var kept := WithoutNullish(Split(left, '|'));
    if kept == "" then right
    else if right == "" || (WeakSeed(right) && !WeakSeed(kept)) then kept
    else MergeTypes([kept, right])
  }

  // ---- What an expression resolves to.

  function FirstNonEmpty(candidates: seq<string>): string {
    if candidates == [] then "" else if candidates[0] != "" then candidates[0] else FirstNonEmpty(candidates[1..])
  }

  /** componentMemberTypeContext */
  function TypeContext(m: Member, c: Component): string {
    FirstNonEmpty([m.typeContextPath, m.filePath, c.definitionPath, c.filePath])
  }

  function FirstNamed(members: seq<Member>, name: string): (i: nat)
    ensures i <= |members|
    ensures i < |members| ==> members[i].name == name
  {
    if members == [] || members[0].name == name then 0 else 1 + FirstNamed(members[1..], name)
  }

  predicate NamedLater(members: seq<Member>, i: nat, name: string) {
    exists j :: i < j < |members| && members[j].name == name
  }

  function PropPath(p: Prop, definitionPath: string): string {
    if p.filePath == "" then definitionPath else p.filePath
  }

  /** Public prop metadata fills the member that owns the name. */
  function FillFromProp(m: Member, p: Prop, definitionPath: string): Member {
    m.(kind := PropMember,
       memberType := if m.memberType == "" then p.propType else m.memberType,
       typeContextPath := if m.typeContextPath == "" then PropPath(p, definitionPath) else m.typeContextPath,
       deprecated := if m.deprecated == "" then p.deprecated else m.deprecated)
  }

  function FillFromProps(m: Member, props: seq<Prop>, definitionPath: string): Member
    decreases |props|
  {
    if props == [] then m
    else
      FillFromProps(if props[0].name != m.name then m else FillFromProp(m, props[0], definitionPath), props[1..], definitionPath)
  }

  function OfProp(p: Prop, definitionPath: string): Member {
    Member(p.name, PropMember, p.propType, p.deprecated, PropPath(p, definitionPath), "", PropPath(p, definitionPath), false)
  }

  function PropMemberNamed(props: seq<Prop>, name: string, definitionPath: string): Option<Member> {
    if props == [] then None
    else if props[0].name == name && name != "" then
      Some(FillFromProps(OfProp(props[0], definitionPath), props[1..], definitionPath))
    else PropMemberNamed(props[1..], name, definitionPath)
  }

  /** TemplateMember: the first entry with the name; props fill the last one. Names that are
      only listed carry no type and are not found here. */
  function RootMember(c: Component, name: string): Option<Member> {
    var i := FirstNamed(c.members, name);
    if i == |c.members| then PropMemberNamed(c.props, name, c.definitionPath)
    else if NamedLater(c.members, i, name) then Some(c.members[i])
    else Some(FillFromProps(c.members[i], c.props, c.definitionPath))
  }

  const NO_ANSWER := Answer(Resolved("", "", false), false)

  function Parsed(index: TypeIndex, expression: string): TypeExpression {
    if expression != "" && expression in index.parsed then index.parsed[expression] else Unreadable
  }

  /** resolveComponentExpressionType */
  function Resolve(index: TypeIndex, c: Component, e: TypeExpression, context: string): Answer {
    match e
    case Unreadable => NO_ANSWER
    case Literal(t) => Answer(Resolved(t, context, false), t != "")
    case Fixed(answer) => answer
    case Nullish(left, right) =>
      var l, r := Resolve(index, c, left, context), Resolve(index, c, right, context);
      var merged := MergeNullish(l.resolved.resolvedType, r.resolved.resolvedType);
      var path := if l.resolved.contextPath == "" then r.resolved.contextPath else l.resolved.contextPath;
      Answer(Resolved(merged, path, l.resolved.openShape), (l.found || r.found) && merged != "")
    case Chain(root, query) =>
      var member := RootMember(c, root);
      if member.None? || member.value.memberType == "" then NO_ANSWER
      else
        var q := ChainQuery(member.value.memberType, TypeContext(member.value, c), query);
        if q !in index.chains then NO_ANSWER
        else
          var answer := index.chains[q];
          if !answer.found then answer
          else Answer(answer.resolved.(openShape := member.value.openRuntimeShape), answer.resolved.resolvedType != "")
  }

  // ---- One pass.

  predicate NeedsInferredType(m: Member) {
    if !m.kind.MethodMember? then Trim(m.memberType) == "" || (m.sourceExpression != "" && WeakSeed(m.memberType))
    else Trim(m.memberType) == "" || Trim(CallableReturnType(m.memberType)) == "unknown"
  }

  /** What an answer makes of a member. */
  function WithInferred(m: Member, answer: Answer): Member {
    var r := answer.resolved;
    if !answer.found || r.resolvedType == "" then m
    else
      var inferred := if m.kind.MethodMember? then CallableWithReturnType(m.memberType, r.resolvedType) else r.resolvedType;
      if m.memberType == inferred && !(r.contextPath != "" && m.typeContextPath != r.contextPath) then m
      else m.(memberType := inferred,
              openRuntimeShape := m.openRuntimeShape || r.openShape,
              typeContextPath := if r.contextPath != "" then r.contextPath else m.typeContextPath)
  }

  function Inferred(index: TypeIndex, c: Component, m: Member): Member {
    if m.sourceExpression == "" || !NeedsInferredType(m) then m
    else WithInferred(m, Resolve(index, c, Parsed(index, m.sourceExpression), TypeContext(m, c)))
  }

  function InferAt(index: TypeIndex, c: Component, i: nat): Component
    requires i < |c.members|
  {
    c.(members := c.members[i := Inferred(index, c, c.members[i])])
  }

  /** The first loop of a pass, members updated in place one after the other. */
  function InferUpTo(index: TypeIndex, c: Component, n: nat): (r: Component)
    requires n <= |c.members|
    ensures |r.members| == |c.members|
  {
    if n == 0 then c else InferAt(index, InferUpTo(index, c, n - 1), n - 1)
  }

  /** The direct writes to a member. */
  function Writes(assignments: seq<Assignment>, name: string): seq<Assignment> {
    if assignments == [] then []
    else
      var init, a := Writes(assignments[..|assignments| - 1], name), assignments[|assignments| - 1];
      if a.target == name && a.target != "" && a.expression != "" then init + [a] else init
  }

  datatype Evidence = Evidence(types: seq<string>, contextPath: string, openShape: bool)

  function WriteEvidence(index: TypeIndex, c: Component, writes: seq<Assignment>, own: string): Evidence {
    if writes == [] then Evidence([], "", false)
    else
      var before, w := WriteEvidence(index, c, writes[..|writes| - 1], own), writes[|writes| - 1];
      var answer := Resolve(index, c, Parsed(index, w.expression), if w.filePath == "" then own else w.filePath);
      if !answer.found || answer.resolved.resolvedType == "" then before
      else Evidence(before.types + [answer.resolved.resolvedType],
                    if before.contextPath == "" then answer.resolved.contextPath else before.contextPath,
                    before.openShape || w.expression in index.objectLiterals)
  }

  /** The type the member's own initializer resolves to, if any. */
  function SourceType(index: TypeIndex, c: Component, m: Member): string {
    var answer := if m.sourceExpression == "" then NO_ANSWER
                  else Resolve(index, c, Parsed(index, m.sourceExpression), TypeContext(m, c));
    if answer.found then answer.resolved.resolvedType else ""
  }

  /** That type, or else the weak indexed seed. */
  function InitialType(index: TypeIndex, c: Component, m: Member): string {
    var resolved := SourceType(index, c, m);
    if resolved == "" && WeakSeed(m.memberType) then m.memberType else resolved
  }

  function WithFlow(m: Member, initialType: string, evidence: Evidence): Member {
    if m.memberType != "" && !WeakSeed(initialType) && !WeakSeed(m.memberType) then m
    else
      var flow := MergeAssignmentTypes(initialType, evidence.types);
      var shaped := m.(openRuntimeShape := m.openRuntimeShape || evidence.openShape);
      if flow == "" || flow == m.memberType then shaped
      else shaped.(memberType := flow,
                   typeContextPath := if evidence.contextPath != "" then evidence.contextPath else m.typeContextPath)
  }

  function Flowed(index: TypeIndex, c: Component, m: Member): Member {
    var writes := Writes(c.assignments, m.name);
    if !m.kind.DataMember? || writes == [] then m
    else WithFlow(m, InitialType(index, c, m), WriteEvidence(index, c, writes, TypeContext(m, c)))
  }

  function FlowAt(index: TypeIndex, c: Component, i: nat): Component
    requires i < |c.members|
  {
    c.(members := c.members[i := Flowed(index, c, c.members[i])])
  }

  function FlowUpTo(index: TypeIndex, c: Component, n: nat): (r: Component)
    requires n <= |c.members|
    ensures |r.members| == |c.members|
  {
    if n == 0 then c else FlowAt(index, FlowUpTo(index, c, n - 1), n - 1)
  }

  function Pass(index: TypeIndex, c: Component): (r: Component)
    ensures |r.members| == |c.members|
  {
    FlowUpTo(index, InferUpTo(index, c, |c.members|), |c.members|)
  }

  function Passes(index: TypeIndex, c: Component, n: nat): (r: Component)
    ensures |r.members| == |c.members|
  {
    if n == 0 then c else Pass(index, Passes(index, c, n - 1))
  }

  function Enrich(index: TypeIndex, c: Component): Component {
    Passes(index, c, |c.members|)
  }

  // ---- The loops, updating the member array in place.

  ghost predicate Holds(members: array<Member>, c: Component)
    reads members
  {
    members[..] == c.members
  }

  method InferMembers(index: TypeIndex, c: Component, members: array<Member>) returns (changed: bool)
    requires Holds(members, c)
    modifies members
    ensures Holds(members, InferUpTo(index, c, members.Length))
    ensures !changed ==> members[..] == old(members[..])
  {
    changed := false;
    for i := 0 to members.Length
      invariant Holds(members, InferUpTo(index, c, i))
      invariant !changed ==> members[..] == old(members[..])
    {
      ghost var before := InferUpTo(index, c, i);
      StaticsKept(index, c, i);
      var member := members[i];
      var now := c.(members := members[..]);
      assert now == before;
      var inferred := Inferred(index, now, member);
      if inferred != member {
        members[i] := inferred;
        changed := true;
      }
    }
  }

  method FlowMembers(index: TypeIndex, c: Component, members: array<Member>) returns (changed: bool)
    requires Holds(members, c)
    modifies members
    ensures Holds(members, FlowUpTo(index, c, members.Length))
    ensures !changed ==> members[..] == old(members[..])
  {
    hide Flowed;
    changed := false;
    for i := 0 to members.Length
      invariant Holds(members, FlowUpTo(index, c, i))
      invariant !changed ==> members[..] == old(members[..])
    {
      ghost var before := FlowUpTo(index, c, i);
      FlowStaticsKept(index, c, i);
      var member := members[i];
      var now := c.(members := members[..]);
      assert now == before;
      var flowed := Flowed(index, now, member);
      if flowed != member {
        members[i] := flowed;
        changed := true;
      }
    }
  }

  lemma {:induction false} StaticsKept(index: TypeIndex, c: Component, n: nat)
    requires n <= |c.members|
    ensures InferUpTo(index, c, n) == c.(members := InferUpTo(index, c, n).members)
  {
    if n > 0 { StaticsKept(index, c, n - 1); }
  }

  lemma {:induction false} FlowStaticsKept(index: TypeIndex, c: Component, n: nat)
    requires n <= |c.members|
    ensures FlowUpTo(index, c, n) == c.(members := FlowUpTo(index, c, n).members)
  {
    if n > 0 { FlowStaticsKept(index, c, n - 1); }
  }

  /** enrichEffectiveComponentMemberTypes: at most one pass a member, stopping when a pass
      changes nothing. */
  method EnrichMemberTypes(index: TypeIndex, c: Component, members: array<Member>)
    requires Holds(members, c)
    modifies members
    ensures Holds(members, Enrich(index, c))
  {
    var pass := 0;
    while pass < members.Length
      invariant 0 <= pass <= members.Length == |c.members|
      invariant Holds(members, Passes(index, c, pass))
    {
      ghost var before := Passes(index, c, pass);
      PassesStatics(index, c, pass);
      var now := c.(members := members[..]);
      assert now == before;
      var inferred := InferMembers(index, now, members);
      StaticsKept(index, now, members.Length);
      var between := c.(members := members[..]);
      assert between == InferUpTo(index, before, members.Length);
      var flowed := FlowMembers(index, between, members);
      pass := pass + 1;
      if !inferred && !flowed {
        assert Pass(index, before).members == before.members;
        PassesStatics(index, c, pass);
        FixedForever(index, c, pass, members.Length);
        return;
      }
    }
  }

  lemma {:induction false} PassesStatics(index: TypeIndex, c: Component, n: nat)
    ensures Passes(index, c, n) == c.(members := Passes(index, c, n).members)
  {
    if n > 0 {
      PassesStatics(index, c, n - 1);
      var d := Passes(index, c, n - 1);
      StaticsKept(index, d, |d.members|);
      FlowStaticsKept(index, InferUpTo(index, d, |d.members|), |d.members|);
    }
  }

  lemma {:induction false} FixedForever(index: TypeIndex, c: Component, n: nat, m: nat)
    requires 0 < n <= m && Passes(index, c, n) == Passes(index, c, n - 1)
    ensures Passes(index, c, m) == Passes(index, c, n)
  {
    hide Passes;
    if n < m {
      FixedForever(index, c, n, m - 1);
      PassesStep(index, c, m);
      PassesStep(index, c, n);
    }
  }

  lemma PassesStep(index: TypeIndex, c: Component, n: nat)
    requires n > 0
    ensures Passes(index, c, n) == Pass(index, Passes(index, c, n - 1))
  {
  }
}
