/** The members a template of the component can name, and the one a type chain starts from
    (internal/admin/component.go:622-702). */
module TemplateMembers {
  import opened AdminModel
  import opened MemberInference

  // ---- The list.

  function LastNamed(members: seq<Member>, name: string): (i: int)
    ensures -1 <= i < |members|
    ensures i >= 0 ==> members[i].name == name
    ensures forall j :: i < j < |members| ==> members[j].name != name
  {
    if members == [] then -1
    else if members[|members| - 1].name == name then |members| - 1
    else LastNamed(members[..|members| - 1], name)
  }

  /** A prop fills the last member of its name, or is appended as one. */
  function WithProp(members: seq<Member>, p: Prop, definitionPath: string): seq<Member> {
    var i := LastNamed(members, p.name);
    if i >= 0 then members[i := FillFromProp(members[i], p, definitionPath)]
    else if p.name == "" then members
    else members + [OfProp(p, definitionPath)]
  }

  function WithProps(members: seq<Member>, props: seq<Prop>, definitionPath: string): seq<Member>
    decreases |props|
  {
    if props == [] then members else WithProps(WithProp(members, props[0], definitionPath), props[1..], definitionPath)
  }

  /** A name that is only listed becomes a member without a type. */
  function WithName(members: seq<Member>, name: string, kind: MemberKind, definitionPath: string): seq<Member> {
    if name == "" || LastNamed(members, name) >= 0 then members
    else members + [Member(name, kind, "", "", definitionPath, "", "", false)]
  }

  function WithNames(members: seq<Member>, names: seq<string>, kind: MemberKind, definitionPath: string): seq<Member>
    decreases |names|
  {
    if names == [] then members
    else WithNames(WithName(members, names[0], kind, definitionPath), names[1..], kind, definitionPath)
  }

  function WithLists(members: seq<Member>, c: Component): seq<Member> {
    var path := c.definitionPath;
    var data := WithNames(members, c.data, DataMember, path);
    var computed := WithNames(data, c.computed, ComputedMember, path);
    WithNames(WithNames(computed, c.methods, MethodMember, path), c.injected, InjectMember, path)
  }

  /** VueComponent.TemplateMembers */
  function Listed(c: Component): seq<Member> {
    WithLists(WithProps(c.members, c.props, c.definitionPath), c)
  }

  // ---- The loops.

  ghost predicate Positions(positions: map<string, nat>, members: seq<Member>) {
    forall name :: (name in positions <==> LastNamed(members, name) >= 0)
                   && (name in positions ==> positions[name] == LastNamed(members, name))
  }

  lemma LastIs(members: seq<Member>, name: string, i: int)
    requires -1 <= i < |members| && (i >= 0 ==> members[i].name == name)
    requires forall j :: i < j < |members| ==> members[j].name != name
    ensures LastNamed(members, name) == i
  {
  }

  lemma AppendPositions(positions: map<string, nat>, members: seq<Member>, m: Member)
    requires Positions(positions, members)
    ensures Positions(positions[m.name := |members|], members + [m])
  {
    forall name ensures LastNamed(members + [m], name) == if name == m.name then |members| else LastNamed(members, name) {
      LastIs(members + [m], name, if name == m.name then |members| else LastNamed(members, name));
    }
  }

  lemma FilledPositions(members: seq<Member>, i: nat, m: Member)
    requires i < |members| && m.name == members[i].name
    ensures forall name :: LastNamed(members[i := m], name) == LastNamed(members, name)
  {
    forall name ensures LastNamed(members[i := m], name) == LastNamed(members, name) {
      LastIs(members[i := m], name, LastNamed(members, name));
    }
  }

  method ListMembers(c: Component) returns (result: seq<Member>)
    ensures result == Listed(c)
  {
    result := c.members;
    var positions: map<string, nat> := map[];
    for i := 0 to |result|
      invariant Positions(positions, result[..i])
    {
      AppendPositions(positions, result[..i], result[i]);
      assert result[..i + 1] == result[..i] + [result[i]];
      positions := positions[result[i].name := i];
    }
    assert result[..|result|] == result;
    assert c.props[0..] == c.props;
    for i := 0 to |c.props|
      invariant Positions(positions, result)
      invariant WithProps(result, c.props[i..], c.definitionPath) == WithProps(c.members, c.props, c.definitionPath)
    {
      var prop := c.props[i];
      assert c.props[i..][1..] == c.props[i + 1..];
      if prop.name in positions {
        var at := positions[prop.name];
        FilledPositions(result, at, FillFromProp(result[at], prop, c.definitionPath));
        result := result[at := FillFromProp(result[at], prop, c.definitionPath)];
      } else if prop.name != "" {
        AppendPositions(positions, result, OfProp(prop, c.definitionPath));
        positions := positions[prop.name := |result|];
        result := result + [OfProp(prop, c.definitionPath)];
      }
    }
    result, positions := ListNames(result, positions, c.data, DataMember, c.definitionPath);
    result, positions := ListNames(result, positions, c.computed, ComputedMember, c.definitionPath);
    result, positions := ListNames(result, positions, c.methods, MethodMember, c.definitionPath);
    result, positions := ListNames(result, positions, c.injected, InjectMember, c.definitionPath);
  }

  method ListNames(members: seq<Member>, known: map<string, nat>, names: seq<string>, kind: MemberKind, path: string)
    returns (result: seq<Member>, positions: map<string, nat>)
    requires Positions(known, members)
    ensures result == WithNames(members, names, kind, path) && Positions(positions, result)
  {
    result, positions := members, known;
    assert names[0..] == names;
    for i := 0 to |names|
      invariant Positions(positions, result)
      invariant WithNames(result, names[i..], kind, path) == WithNames(members, names, kind, path)
    {
      assert names[i..][1..] == names[i + 1..];
      if names[i] in positions || names[i] == "" {
        continue;
      }
      var member := Member(names[i], kind, "", "", path, "", "", false);
      AppendPositions(positions, result, member);
      positions := positions[names[i] := |result|];
      result := result + [member];
    }
  }

  // ---- The member of a name.

  function FirstEntry(members: seq<Member>, name: string): Option<Member> {
    var i := FirstNamed(members, name);
    if i < |members| then Some(members[i]) else None
  }

  lemma {:induction false} FirstIs(members: seq<Member>, name: string)
    ensures forall j :: 0 <= j < FirstNamed(members, name) ==> members[j].name != name
  {
    if members != [] && members[0].name != name {
      FirstIs(members[1..], name);
      assert forall j :: 0 < j < |members| ==> members[j] == members[1..][j - 1];
    }
  }

  lemma FirstAt(members: seq<Member>, name: string, i: nat)
    requires i <= |members| && (i < |members| ==> members[i].name == name)
    requires forall j :: 0 <= j < i ==> members[j].name != name
    ensures FirstNamed(members, name) == i
  {
    FirstIs(members, name);
  }

  /** Writing elsewhere, or appending another name, leaves the first entry of a name alone. */
  lemma PropElsewhere(members: seq<Member>, p: Prop, path: string, name: string)
    requires p.name != name
    ensures var (i, j) := (FirstNamed(members, name), FirstNamed(WithProp(members, p, path), name));
            && FirstEntry(WithProp(members, p, path), name) == FirstEntry(members, name)
            && (i < |members| ==> i == j && (NamedLater(WithProp(members, p, path), i, name) <==> NamedLater(members, i, name)))
  {
    var after := WithProp(members, p, path);
    var i := FirstNamed(members, name);
    FirstIs(members, name);
    FirstAt(after, name, if i == |members| then |after| else i);
    assert forall k :: 0 <= k < |members| ==> after[k].name == members[k].name;
    if i < |members| {
      if k :| i < k < |members| && members[k].name == name {
        assert after[k].name == name;
      }
      if k :| i < k < |after| && after[k].name == name {
        assert k < |members| && members[k].name == name;
      }
    }
  }

  lemma {:induction false} PropsRoot(members: seq<Member>, props: seq<Prop>, path: string, name: string)
    ensures FirstEntry(WithProps(members, props, path), name)
            == var i := FirstNamed(members, name);
               if i == |members| then PropMemberNamed(props, name, path)
               else if NamedLater(members, i, name) then Some(members[i])
               else Some(FillFromProps(members[i], props, path))
    decreases |props|
  {
    if props != [] {
      var p := props[0];
      var after, i := WithProp(members, p, path), FirstNamed(members, name);
      PropsRoot(after, props[1..], path, name);
      FirstIs(members, name);
      if p.name != name {
        PropElsewhere(members, p, path, name);
      } else if i == |members| {
        assert LastNamed(members, name) == -1;
        if name != "" {
          FirstAt(after, name, |members|);
          assert !NamedLater(after, |members|, name);
        }
      } else {
        FirstAt(after, name, i);
        var last := LastNamed(members, name);
        if NamedLater(members, i, name) {
          assert last > i && after[last].name == name;
        } else {
          assert last == i;
          assert forall k :: i < k < |after| ==> after[k].name != name;
        }
      }
    }
  }

  lemma {:induction false} NamesRoot(members: seq<Member>, names: seq<string>, kind: MemberKind, path: string, name: string)
    ensures FirstEntry(members, name).Some? ==> FirstEntry(WithNames(members, names, kind, path), name) == FirstEntry(members, name)
    ensures FirstEntry(members, name).None? && FirstEntry(WithNames(members, names, kind, path), name).Some? ==>
              FirstEntry(WithNames(members, names, kind, path), name).value.memberType == ""
    decreases |names|
  {
    if names != [] {
      var after, i := WithName(members, names[0], kind, path), FirstNamed(members, name);
      FirstIs(members, name);
      if i < |members| {
        FirstAt(after, name, i);
      } else if after != members {
        FirstAt(after, name, if names[0] == name then |members| else |after|);
      }
      NamesRoot(after, names[1..], kind, path, name);
    }
  }

  /** The member a chain starts from is the first of its name in that list, if that one has a type. */
  lemma RootIsListed(c: Component, name: string)
    ensures match RootMember(c, name)
            case Some(m) => FirstEntry(Listed(c), name) == Some(m)
            case None => FirstEntry(Listed(c), name).Some? ==> FirstEntry(Listed(c), name).value.memberType == ""
  {
    var path := c.definitionPath;
    var props := WithProps(c.members, c.props, path);
    PropsRoot(c.members, c.props, path, name);
    var data := WithNames(props, c.data, DataMember, path);
    var computed := WithNames(data, c.computed, ComputedMember, path);
    var methods := WithNames(computed, c.methods, MethodMember, path);
    NamesRoot(props, c.data, DataMember, path, name);
    NamesRoot(data, c.computed, ComputedMember, path, name);
    NamesRoot(computed, c.methods, MethodMember, path, name);
    NamesRoot(methods, c.injected, InjectMember, path, name);
  }
}
