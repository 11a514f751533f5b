/** The component names a selector expression can evaluate to:
    internal/admin/dynamic_component_resolution.go:240-379 and 525-573. */
module SelectorResolver {
  import opened AdminModel
  import opened CallableType
  import opened TextScan
  import opened TypeText
  import opened SelectorText
  import opened ComponentOverlay

  /** dynamicComponentNames */
  datatype Names = Names(names: seq<string>, found: bool, complete: bool)

  const NOTHING := Names([], false, false)

  /** A template member, as far as selectors look at it. */
  datatype SelectorMember = SelectorMember(name: string, kind: MemberKind, memberType: string, source: string,
                                           returned: seq<string>, returnsComplete: bool)

  datatype PropDefault = PropDefault(name: string, expression: string)

  /** What the analysis reads of a component: its members are those a template can name, and
      `cms` holds the registered names for expressions that read a CMS registry. */
  datatype SelectorComponent = SelectorComponent(
    locals: seq<LocalEntry>, members: seq<SelectorMember>, assignments: seq<Assignment>, props: seq<PropDefault>,
    cms: map<string, seq<string>>)

  // ---- Name lists.

  /** appendUniqueDynamicNames */
  function AppendUnique(values: seq<string>, additions: seq<string>): seq<string> {
    if additions == [] then values
    else
      var earlier, x := AppendUnique(values, additions[..|additions| - 1]), additions[|additions| - 1];
      if x == "" || x in earlier then earlier else earlier + [x]
  }

  method AppendUniqueDynamicNames(values: seq<string>, additions: seq<string>) returns (result: seq<string>)
    ensures result == AppendUnique(values, additions)
  {
    result := values;
    var seen := set v | v in values;
    for i := 0 to |additions|
      invariant result == AppendUnique(values, additions[..i])
      invariant seen == set v | v in result
    {
      assert additions[..i + 1][..i] == additions[..i];
      if additions[i] == "" || additions[i] in seen {
        continue;
      }
      seen := seen + {additions[i]};
      result := result + [additions[i]];
    }
    assert additions[..|additions|] == additions;
  }

  lemma {:induction false} AppendUniqueMember(values: seq<string>, additions: seq<string>, x: string)
    ensures x in AppendUnique(values, additions) <==> x in values || (x != "" && x in additions)
  {
    if additions != [] {
      AppendUniqueMember(values, additions[..|additions| - 1], x);
      assert additions == additions[..|additions| - 1] + [additions[|additions| - 1]];
    }
  }

  /** mergeDynamicComponentNames */
  function Merge(left: Names, right: Names): Names {
    Names(AppendUnique(left.names, right.names), left.found || right.found,
          left.found && right.found && left.complete && right.complete)
  }

  // ---- Types.

  /** adminTypeStringLiteral */
  function TypeStringLiteral(value: string): string {
    var t := Trim(value);
    if |t| < 2 || t[0] != t[|t| - 1] || !IsQuote(t[0]) then "" else Trim(t[1..|t| - 1])
  }

  predicate NoName(alternative: string) {
    alternative == "null" || alternative == "undefined" || alternative == "false" || alternative == "never"
  }

  function NamesFromAlternatives(alternatives: seq<string>, names: seq<string>): Names {
    if alternatives == [] then Names(names, true, true)
    else
      var alternative := Trim(alternatives[0]);
      if TypeStringLiteral(alternative) != "" then
        NamesFromAlternatives(alternatives[1..], AppendUnique(names, [TypeStringLiteral(alternative)]))
      else if NoName(alternative) then NamesFromAlternatives(alternatives[1..], names)
      else NOTHING
  }

  /** dynamicComponentNamesFromType */
  function NamesFromType(value: string): Names {
    var t := Trim(value);
    if t == "" then NOTHING else NamesFromAlternatives(Split(t, '|'), [])
  }

  method DynamicComponentNamesFromType(value: string) returns (result: Names)
    ensures result == NamesFromType(value)
  {
    var t := Trim(value);
    if t == "" {
      return NOTHING;
    }
    result := Names([], true, true);
    var alternatives := SplitAdminTypeTopLevel(t, '|');
    assert alternatives[0..] == alternatives;
    for i := 0 to |alternatives|
      invariant result.found && result.complete
      invariant NamesFromType(value) == NamesFromAlternatives(alternatives[i..], result.names)
    {
      assert alternatives[i..][1..] == alternatives[i + 1..];
      var alternative := Trim(alternatives[i]);
      var name := TypeStringLiteral(alternative);
      if name != "" {
        var names := AppendUniqueDynamicNames(result.names, [name]);
        result := result.(names := names);
      } else if !NoName(alternative) {
        return NOTHING;
      }
    }
  }

  /** memberValueType */
  function ValueType(m: SelectorMember): string {
    if m.kind.MethodMember? then CallableReturnType(m.memberType) else m.memberType
  }

  // ---- Members.

  function Find(members: seq<SelectorMember>, name: string): (r: Option<SelectorMember>)
    ensures r.Some? ==> r.value in members && r.value.name == name
  {
    if members == [] then None else if members[0].name == name then Some(members[0]) else Find(members[1..], name)
  }

  predicate NamesLocal(local: LocalEntry, name: string) {
    name == local.symbol || name == local.name || CamelToKebab(name) == local.name
  }

  function FindLocal(locals: seq<LocalEntry>, name: string): Option<LocalEntry> {
    if locals == [] then None else if NamesLocal(locals[0], name) then Some(locals[0]) else FindLocal(locals[1..], name)
  }

  /** The member a reference means: methods must be called and nothing else may be. */
  function Referenced(c: SelectorComponent, name: string, called: bool): (r: Option<SelectorMember>)
    ensures r.Some? ==> r.value in c.members && r.value.name == name
  {
    match Find(c.members, name)
    case None => None
    case Some(m) => if m.kind.MethodMember? == called then Some(m) else None
  }

  function Key(m: SelectorMember): string {
    KindName(m.kind) + "\0" + m.name
  }

  function Keys(c: SelectorComponent): set<string> {
    set m | m in c.members :: Key(m)
  }

  predicate IsConstant(e: string) {
    e == "null" || e == "undefined" || e == "false"
  }

  lemma GuardGrows(c: SelectorComponent, resolving: set<string>, m: SelectorMember)
    requires m in c.members && Key(m) !in resolving
    ensures |Keys(c) - (resolving + {Key(m)})| < |Keys(c) - resolving|
  {
    assert Keys(c) - resolving == (Keys(c) - (resolving + {Key(m)})) + {Key(m)};
  }

  lemma OperandsShrink(e: string, operator: string)
    requires SplitOperator(e, operator).Some? && operator != ""
    ensures |SplitOperator(e, operator).value.0| < |e| && |SplitOperator(e, operator).value.1| < |e|
  {
    var i := OperatorFrom(e, 0, NEUTRAL_SLOT, operator);
    TrimShrinks(e[..i]);
    TrimShrinks(e[i + |operator|..]);
  }

  // ---- Resolution.

  /** resolveDynamicComponentNames; `resolving` guards against cycles. */
  function Resolve(c: SelectorComponent, text: string, resolving: set<string>): Names
    decreases |Keys(c) - resolving|, 0, |text|, 1
  {
    CoreShrinks(text);
    ResolveCore(c, Core(text), resolving)
  }

  function ResolveCore(c: SelectorComponent, e: string, resolving: set<string>): Names
    decreases |Keys(c) - resolving|, 0, |e|, 0
  {
    if e == "" then NOTHING
    else if StaticString(e).Some? then Names([StaticString(e).value], true, true)
    else if IsConstant(e) then Names([], true, true)
    else if SplitConditional(e).Some? then
      var split := SplitConditional(e).value;
      Merge(Resolve(c, e[split.question + 1..split.colon], resolving), Resolve(c, e[split.colon + 1..], resolving))
    else if SplitOperator(e, "??").Some? then
      OperandsShrink(e, "??");
      var (left, right) := SplitOperator(e, "??").value;
      Merge(Resolve(c, left, resolving), Resolve(c, right, resolving))
    else if SplitOperator(e, "||").Some? then
      OperandsShrink(e, "||");
      var (left, right) := SplitOperator(e, "||").value;
      Merge(Resolve(c, left, resolving), Resolve(c, right, resolving))
    else if e in c.cms && AppendUnique([], c.cms[e]) != [] then Names(AppendUnique([], c.cms[e]), true, true)
    else
      match SingleReference(e)
      case None => NOTHING
      case Some(segment) => ResolveReference(c, segment.name, segment.called, resolving)
  }

  function ResolveReference(c: SelectorComponent, name: string, called: bool, resolving: set<string>): Names
    decreases |Keys(c) - resolving|, 0, 0, 0
  {
    if !called && FindLocal(c.locals, name).Some? then Names([FindLocal(c.locals, name).value.name], true, true)
    else
      match Referenced(c, name, called)
      case None => NOTHING
      case Some(m) =>
        if Key(m) in resolving then NOTHING
        else
          GuardGrows(c, resolving, m);
          ResolveMember(c, m, resolving + {Key(m)})
  }

  /** The value of a member that is now guarded. */
  function ResolveMember(c: SelectorComponent, m: SelectorMember, resolving: set<string>): Names
    decreases |Keys(c) - resolving|, 2, 0, 0
  {
    var typed := NamesFromType(ValueType(m));
    var written := if m.kind.DataMember? then
                     ResolveAssignments(c, m.name, c.assignments, resolving,
                                        if m.source != "" then Resolve(c, m.source, resolving) else NOTHING)
                   else NOTHING;
    var source := if m.source != "" then Resolve(c, m.source, resolving) else NOTHING;
    if typed.found && typed.complete then typed
    else if written.found then written.(complete := false)
    else if source.found then source
    else if m.returned != [] then ResolveReturns(c, m.returned, resolving, Names([], true, m.returnsComplete))
    else if m.kind.PropMember? then ResolveDefault(c, m.name, c.props, resolving)
    else NOTHING
  }

  function ResolveAssignments(c: SelectorComponent, target: string, rest: seq<Assignment>, resolving: set<string>,
                              result: Names): Names
    decreases |Keys(c) - resolving|, 1, |rest|, 0
  {
    if rest == [] then result
    else if rest[0].target != target || rest[0].expression == "" then
      ResolveAssignments(c, target, rest[1..], resolving, result)
    else
      ResolveAssignments(c, target, rest[1..], resolving, Merge(result, Resolve(c, rest[0].expression, resolving)))
  }

  function WithReturn(result: Names, resolved: Names): Names {
    Names(AppendUnique(result.names, resolved.names), result.found,
          result.complete && resolved.found && resolved.complete)
  }

  function ResolveReturns(c: SelectorComponent, rest: seq<string>, resolving: set<string>, result: Names): Names
    decreases |Keys(c) - resolving|, 1, |rest|, 0
  {
    if rest == [] then result
    else ResolveReturns(c, rest[1..], resolving, WithReturn(result, Resolve(c, rest[0], resolving)))
  }

  function ResolveDefault(c: SelectorComponent, name: string, rest: seq<PropDefault>, resolving: set<string>): Names
    decreases |Keys(c) - resolving|, 1, |rest|, 0
  {
    if rest == [] then NOTHING
    else if rest[0].name != name || rest[0].expression == "" then ResolveDefault(c, name, rest[1..], resolving)
    else Resolve(c, rest[0].expression, resolving).(complete := false)
  }

  // ---- The recursion with its shared guard.

  class DynamicSelector {
    const c: SelectorComponent
    var resolving: set<string>

    constructor (c: SelectorComponent)
      ensures this.c == c && resolving == {}
    {
      this.c, resolving := c, {};
    }

    /** Terminates, answers what Resolve says, and hands the guard back as it got it. */
    method ResolveDynamicComponentNames(expression: string) returns (result: Names)
      modifies this
      ensures result == Resolve(c, expression, old(resolving)) && resolving == old(resolving)
      decreases |Keys(c) - resolving|, 0, |expression|, 1
    {
      CoreShrinks(expression);
      var trimmed := TrimSource(expression);
      var core := UnwrapParentheses(trimmed);
      result := ResolveExpression(core);
    }

    method ResolveExpression(e: string) returns (result: Names)
      modifies this
      ensures result == ResolveCore(c, e, old(resolving)) && resolving == old(resolving)
      decreases |Keys(c) - resolving|, 0, |e|, 0
    {
      hide AppendUnique;
      if e == "" {
        return NOTHING;
      }
      var name, _, _, literal := StaticDynamicComponentString(e);
      if literal {
        return Names([name], true, true);
      }
      if IsConstant(e) {
        return Names([], true, true);
      }
      var trueStart, trueEnd, falseStart, falseEnd, conditional := SplitDynamicComponentConditional(e);
      if conditional {
        var whenTrue := ResolveDynamicComponentNames(e[trueStart..trueEnd]);
        var whenFalse := ResolveDynamicComponentNames(e[falseStart..falseEnd]);
        assert e[falseStart..falseEnd] == e[falseStart..];
        return Merge(whenTrue, whenFalse);
      }
      var left, right, split := SplitTopLevelOperator(e, "??");
      if !split {
        left, right, split := SplitTopLevelOperator(e, "||");
        if split {
          OperandsShrink(e, "||");
        }
      } else {
        OperandsShrink(e, "??");
      }
      if split {
        var first := ResolveDynamicComponentNames(left);
        var second := ResolveDynamicComponentNames(right);
        return Merge(first, second);
      }
      if e in c.cms {
        var names := AppendUniqueDynamicNames([], c.cms[e]);
        if names != [] {
          return Names(names, true, true);
        }
      }
      var segment := SingleReference(e);
      if segment.None? {
        return NOTHING;
      }
      result := FollowReference(segment.value.name, segment.value.called);
    }

    method FollowReference(name: string, called: bool) returns (result: Names)
      modifies this
      ensures result == ResolveReference(c, name, called, old(resolving)) && resolving == old(resolving)
      decreases |Keys(c) - resolving|, 0, 0, 0
    {
      if !called {
        var local := FindLocal(c.locals, name);
        if local.Some? {
          return Names([local.value.name], true, true);
        }
      }
      var member := Referenced(c, name, called);
      if member.None? || Key(member.value) in resolving {
        return NOTHING;
      }
      ghost var before := resolving;
      GuardGrows(c, resolving, member.value);
      resolving := resolving + {Key(member.value)};
      result := FollowMember(member.value);
      resolving := resolving - {Key(member.value)};
      assert before + {Key(member.value)} - {Key(member.value)} == before;
    }

    method FollowMember(m: SelectorMember) returns (result: Names)
      modifies this
      ensures result == ResolveMember(c, m, old(resolving)) && resolving == old(resolving)
      decreases |Keys(c) - resolving|, 2, 0, 0
    {
      var typed := DynamicComponentNamesFromType(ValueType(m));
      if typed.found && typed.complete {
        return typed;
      }
      if m.kind.DataMember? {
        result := FollowAssignments(m);
        if result.found {
          return result.(complete := false);
        }
      }
      if m.source != "" {
        result := ResolveDynamicComponentNames(m.source);
        if result.found {
          return;
        }
      }
      if |m.returned| > 0 {
        result := FollowReturns(m);
        return;
      }
      if m.kind.PropMember? {
        result := FollowDefault(m.name);
        return;
      }
      return NOTHING;
    }

    method FollowAssignments(m: SelectorMember) returns (result: Names)
      modifies this
      ensures result == ResolveAssignments(c, m.name, c.assignments, old(resolving),
                                           if m.source != "" then Resolve(c, m.source, old(resolving)) else NOTHING)
      ensures resolving == old(resolving)
      decreases |Keys(c) - resolving|, 1, 0, 0
    {
      result := NOTHING;
      if m.source != "" {
        result := ResolveDynamicComponentNames(m.source);
      }
      ghost var goal := ResolveAssignments(c, m.name, c.assignments, resolving, result);
      assert c.assignments[0..] == c.assignments;
      for i := 0 to |c.assignments|
        invariant resolving == old(resolving)
        invariant goal == ResolveAssignments(c, m.name, c.assignments[i..], old(resolving), result)
      {
        var assignment := c.assignments[i];
        assert c.assignments[i..][0] == assignment && c.assignments[i..][1..] == c.assignments[i + 1..];
        if assignment.target != m.name || assignment.expression == "" {
          continue;
        }
        var resolved := ResolveDynamicComponentNames(assignment.expression);
        result := Merge(result, resolved);
      }
    }

    method FollowReturns(m: SelectorMember) returns (result: Names)
      modifies this
      ensures result == ResolveReturns(c, m.returned, old(resolving), Names([], true, m.returnsComplete))
      ensures resolving == old(resolving)
      decreases |Keys(c) - resolving|, 1, 0, 0
    {
      result := Names([], true, m.returnsComplete);
      ghost var goal := ResolveReturns(c, m.returned, resolving, result);
      assert m.returned[0..] == m.returned;
      for i := 0 to |m.returned|
        invariant resolving == old(resolving)
        invariant goal == ResolveReturns(c, m.returned[i..], old(resolving), result)
      {
        assert m.returned[i..][0] == m.returned[i] && m.returned[i..][1..] == m.returned[i + 1..];
        var resolved := ResolveDynamicComponentNames(m.returned[i]);
        var names := AppendUniqueDynamicNames(result.names, resolved.names);
        result := Names(names, result.found, result.complete && resolved.found && resolved.complete);
      }
    }

    method FollowDefault(name: string) returns (result: Names)
      modifies this
      ensures result == ResolveDefault(c, name, c.props, old(resolving)) && resolving == old(resolving)
      decreases |Keys(c) - resolving|, 1, 0, 0
    {
      assert c.props[0..] == c.props;
      for i := 0 to |c.props|
        invariant resolving == old(resolving)
        invariant ResolveDefault(c, name, c.props, old(resolving)) == ResolveDefault(c, name, c.props[i..], old(resolving))
      {
        var prop := c.props[i];
        assert c.props[i..][0] == prop && c.props[i..][1..] == c.props[i + 1..];
        if prop.name != name || prop.expression == "" {
          continue;
        }
        result := ResolveDynamicComponentNames(prop.expression);
        return result.(complete := false);
      }
      return NOTHING;
    }
  }
}
