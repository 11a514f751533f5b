/** Which Vue bindings a template position sees: internal/admin/vue_scope_bindings.go:134-167,
    and the membership test that must agree with it: internal/admin/usage_twig_helpers.go:135-158. */
module VueBindings {
  import opened AdminModel
  import opened Overlay
  import opened StableSort

  type Offset = n: nat | n < 0x1_0000_0000

  datatype TextRange = TextRange(start: Offset, end: Offset)
  {
    /** The length wraps around, as unsigned arithmetic does. */
    function Len(): (n: nat)
      ensures n < 0x1_0000_0000 && (start + n) % 0x1_0000_0000 == end
    {
      if end >= start then end - start else end - start + 0x1_0000_0000
    }

    /** Both ends belong to the range. */
    predicate Touches(offset: Offset) {
      start <= offset <= end
    }

    predicate Within(outer: TextRange) {
      outer.start <= start && end <= outer.end
    }
  }

  datatype BindingKind = ForBinding | EventBinding

  datatype Binding = Binding(name: string, kind: BindingKind, ordinal: int, declaration: TextRange,
                             scope: TextRange, expression: TextRange)
  {
    /** An empty declaration range stands nowhere. */
    predicate IsDeclarationOffset(offset: Offset): (declared: bool)
      ensures declared <==> declaration.start != declaration.end && declaration.start <= offset <= declaration.end
    {
      declaration.Len() > 0 && declaration.Touches(offset)
    }

    /** An alias is not visible in its own expression, except where it is declared. */
    predicate VisibleAt(offset: Offset) {
      && scope.Touches(offset)
      && !(kind == ForBinding && expression.Touches(offset) && !IsDeclarationOffset(offset))
    }
  }

  predicate ScopeLonger(a: Binding, b: Binding) {
    a.scope.Len() > b.scope.Len()
  }

  function BindingName(b: Binding): string {
    b.name
  }

  function Replace(present: Binding, later: Binding): Binding {
    later
  }

  const BY_NAME := Policy(BindingName, Replace, false)

  function Visible(bindings: seq<Binding>, offset: Offset): seq<Binding> {
    if bindings == [] then []
    else
      Visible(bindings[..|bindings| - 1], offset)
      + if bindings[|bindings| - 1].VisibleAt(offset) then [bindings[|bindings| - 1]] else []
  }

  /** Outer scopes first, and a later entry replaces an earlier one of its name. */
  function AtOffset(bindings: seq<Binding>, offset: Offset): seq<Binding> {
    Lay([], SortStable(Visible(bindings, offset), ScopeLonger), BY_NAME)
  }

  lemma VisibleFrom(bindings: seq<Binding>, offset: Offset, i: nat)
    requires i <= |bindings|
    ensures Visible([], offset) == [] && bindings[..0] == []
    ensures i < |bindings| ==>
              Visible(bindings[..i + 1], offset)
              == Visible(bindings[..i], offset) + if bindings[i].VisibleAt(offset) then [bindings[i]] else []
  {
    if i < |bindings| {
      assert bindings[..i + 1][..i] == bindings[..i];
    }
  }

  lemma NothingIndexed()
    ensures Indexes(map[], [], BY_NAME)
  {
  }

  lemma BindingPut(positions: map<string, int>, list: seq<Binding>, b: Binding)
    requires Indexes(positions, list, BY_NAME)
    ensures b.name in positions ==>
              0 <= positions[b.name] < |list| && Put(list, BY_NAME, b) == list[positions[b.name] := b]
              && Indexes(positions, Put(list, BY_NAME, b), BY_NAME)
    ensures b.name !in positions ==>
              Put(list, BY_NAME, b) == list + [b] && Indexes(positions[b.name := |list|], Put(list, BY_NAME, b), BY_NAME)
  {
    PutIndexes(positions, list, BY_NAME, b);
  }

  method TwigVueBindingsAtOffset(bindings: seq<Binding>, offset: Offset) returns (result: seq<Binding>)
    ensures result == AtOffset(bindings, offset)
  {
    hide Indexes, Put, Position, Visible;
    var visible := [];
    assert Visible(bindings[..0], offset) == [] by { VisibleFrom(bindings, offset, 0); }
    for i := 0 to |bindings|
      invariant visible == Visible(bindings[..i], offset)
    {
      VisibleFrom(bindings, offset, i);
      var binding := bindings[i];
      if offset < binding.scope.start || offset > binding.scope.end {
        continue;
      }
      if binding.kind == ForBinding && offset >= binding.expression.start && offset <= binding.expression.end
         && !binding.IsDeclarationOffset(offset) {
        continue;
      }
      visible := visible + [binding];
    }
    assert bindings[..|bindings|] == bindings;
    visible := SortStable(visible, ScopeLonger);
    var positions: map<string, int> := map[];
    result := [];
    assert Indexes(positions, result, BY_NAME) by { NothingIndexed(); }
    for i := 0 to |visible|
      invariant result == Lay([], visible[..i], BY_NAME)
      invariant Indexes(positions, result, BY_NAME)
    {
      assert visible[..i + 1][..i] == visible[..i];
      BindingPut(positions, result, visible[i]);
      var binding := visible[i];
      if binding.name in positions {
        result := result[positions[binding.name] := binding];
        continue;
      }
      positions := positions[binding.name := |result|];
      result := result + [binding];
    }
    assert visible[..|visible|] == visible;
  }

  // ---- The last of a name in the sorted list.

  lemma {:induction false} LayKeepsLast(list: seq<Binding>, name: string)
    ensures Lookup(Lay([], list, BY_NAME), BY_NAME, name) == Lookup(list, BY_NAME, name)
  {
    if list != [] {
      var init, x := list[..|list| - 1], list[|list| - 1];
      assert init + [x] == list;
      LayKeepsLast(init, name);
      PutLookup(Lay([], init, BY_NAME), BY_NAME, x, name);
      LookupAppend(init, x, BY_NAME, name);
    }
  }

  predicate Descending(list: seq<Binding>) {
    forall i, j :: 0 <= i < j < |list| ==> list[i].scope.Len() >= list[j].scope.Len()
  }

  lemma {:induction false} InsertDescending(sorted: seq<Binding>, x: Binding)
    requires Descending(sorted)
    ensures Descending(Insert(sorted, x, ScopeLonger))
  {
    if sorted != [] && ScopeLonger(x, sorted[|sorted| - 1]) {
      var init, z := sorted[..|sorted| - 1], sorted[|sorted| - 1];
      InsertDescending(init, x);
      var inserted := Insert(init, x, ScopeLonger);
      forall i | 0 <= i < |inserted|
        ensures inserted[i].scope.Len() >= z.scope.Len()
      {
        InsertKeeps(init, x, ScopeLonger, inserted[i]);
      }
    }
  }

  lemma {:induction false} SortDescending(list: seq<Binding>)
    ensures Descending(SortStable(list, ScopeLonger))
  {
    if list != [] {
      SortDescending(list[..|list| - 1]);
      InsertDescending(SortStable(list[..|list| - 1], ScopeLonger), list[|list| - 1]);
    }
  }

  /** A later entry takes over unless its scope is longer. */
  function Better(best: Option<Binding>, x: Binding, name: string): Option<Binding> {
    if x.name == name && (best.Some? ==> !ScopeLonger(x, best.value)) then Some(x) else best
  }

  lemma {:induction false} InsertLookup(sorted: seq<Binding>, x: Binding, name: string)
    requires Descending(sorted)
    ensures Lookup(Insert(sorted, x, ScopeLonger), BY_NAME, name) == Better(Lookup(sorted, BY_NAME, name), x, name)
  {
    if sorted != [] && ScopeLonger(x, sorted[|sorted| - 1]) {
      var init, z := sorted[..|sorted| - 1], sorted[|sorted| - 1];
      assert init + [z] == sorted;
      InsertLookup(init, x, name);
      LookupAppend(init, z, BY_NAME, name);
      LookupAppend(Insert(init, x, ScopeLonger), z, BY_NAME, name);
    } else {
      LookupAppend(sorted, x, BY_NAME, name);
    }
  }

  function Best(list: seq<Binding>, name: string): Option<Binding> {
    if list == [] then None else Better(Best(list[..|list| - 1], name), list[|list| - 1], name)
  }

  lemma {:induction false} SortLookup(list: seq<Binding>, name: string)
    ensures Lookup(SortStable(list, ScopeLonger), BY_NAME, name) == Best(list, name)
  {
    if list != [] {
      SortDescending(list[..|list| - 1]);
      SortLookup(list[..|list| - 1], name);
      InsertLookup(SortStable(list[..|list| - 1], ScopeLonger), list[|list| - 1], name);
    }
  }

  // ---- The innermost binding wins.

  /** Of the visible bindings of its name it has the shortest scope, and is the last of these. */
  predicate Wins(visible: seq<Binding>, i: nat)
    requires i < |visible|
  {
    forall j :: 0 <= j < |visible| && visible[j].name == visible[i].name ==>
      && visible[i].scope.Len() <= visible[j].scope.Len()
      && (j > i ==> visible[i].scope.Len() < visible[j].scope.Len())
  }

  lemma {:induction false} BestWins(list: seq<Binding>, name: string) returns (i: nat)
    ensures Best(list, name).None? ==> forall j :: 0 <= j < |list| ==> list[j].name != name
    ensures Best(list, name).Some? ==> i < |list| && Best(list, name) == Some(list[i]) && list[i].name == name && Wins(list, i)
  {
    i := 0;
    if list != [] {
      var init := list[..|list| - 1];
      i := BestWins(init, name);
      if list[|list| - 1].name == name && (Best(init, name).Some? ==> !ScopeLonger(list[|list| - 1], Best(init, name).value)) {
        i := |list| - 1;
      } else if Best(init, name).Some? {
        assert forall j :: 0 <= j < |init| ==> list[j] == init[j];
      }
    }
  }

  lemma WinnerIsBest(list: seq<Binding>, i: nat)
    requires i < |list| && Wins(list, i)
    ensures Best(list, list[i].name) == Some(list[i])
  {
    var k := BestWins(list, list[i].name);
  }

  /** The result names every visible name once, and under it exactly the binding that wins. */
  lemma InnermostWins(bindings: seq<Binding>, offset: Offset, b: Binding)
    ensures var visible := Visible(bindings, offset);
            && UniqueKeys(AtOffset(bindings, offset), BY_NAME)
            && (b in AtOffset(bindings, offset) <==> exists i :: 0 <= i < |visible| && visible[i] == b && Wins(visible, i))
  {
    hide Lay, SortStable, Wins, Best, Lookup;
    LayUnique([], SortStable(Visible(bindings, offset), ScopeLonger), BY_NAME);
    ResultIsBest(bindings, offset, b);
    BestIff(Visible(bindings, offset), b);
  }

  lemma ResultIsBest(bindings: seq<Binding>, offset: Offset, b: Binding)
    requires UniqueKeys(AtOffset(bindings, offset), BY_NAME)
    ensures b in AtOffset(bindings, offset) <==> Best(Visible(bindings, offset), b.name) == Some(b)
  {
    hide Lay, SortStable, Best;
    var visible, result := Visible(bindings, offset), AtOffset(bindings, offset);
    LayKeepsLast(SortStable(visible, ScopeLonger), b.name);
    SortLookup(visible, b.name);
    if b in result {
      var j :| 0 <= j < |result| && result[j] == b;
      PositionIs(result, BY_NAME, b.name, j);
    }
  }

  lemma BestIff(visible: seq<Binding>, b: Binding)
    ensures Best(visible, b.name) == Some(b) <==> exists i :: 0 <= i < |visible| && visible[i] == b && Wins(visible, i)
  {
    hide Wins, Best;
    var k := BestWins(visible, b.name);
    if i :| 0 <= i < |visible| && visible[i] == b && Wins(visible, i) {
      WinnerIsBest(visible, i);
    }
  }

  lemma {:induction false} VisibleMembers(bindings: seq<Binding>, offset: Offset, b: Binding)
    ensures b in Visible(bindings, offset) <==> b in bindings && b.VisibleAt(offset)
  {
    if bindings != [] {
      var init := bindings[..|bindings| - 1];
      assert bindings == init + [bindings[|bindings| - 1]];
      VisibleMembers(init, offset, b);
    }
  }

  /** Where the visible scopes nest, the binding found for a name lies within the scope of every
      other visible binding of that name. */
  lemma NestedMeansInnermost(bindings: seq<Binding>, offset: Offset, b: Binding, other: Binding)
    requires b in AtOffset(bindings, offset)
    requires other in bindings && other.VisibleAt(offset) && other.name == b.name
    requires b.scope.Within(other.scope) || other.scope.Within(b.scope)
    ensures b in bindings && b.VisibleAt(offset) && b.scope.Within(other.scope)
  {
    InnermostWins(bindings, offset, b);
    VisibleMembers(bindings, offset, b);
    VisibleMembers(bindings, offset, other);
  }

  lemma ShorterWins(visible: seq<Binding>, a: Binding, b: Binding)
    requires forall x :: x in visible ==> x == a || x == b
    requires b in visible && a.name == b.name && b.scope.Len() < a.scope.Len()
    ensures exists i :: 0 <= i < |visible| && visible[i] == b && Wins(visible, i)
    ensures forall i :: 0 <= i < |visible| && visible[i] == a ==> !Wins(visible, i)
  {
    var k := BestWins(visible, b.name);
    var j :| 0 <= j < |visible| && visible[j] == b;
    assert Best(visible, b.name).Some?;
    assert visible[k] in visible && visible[k] == b;
    forall i | 0 <= i < |visible| && visible[i] == a
      ensures !Wins(visible, i)
    {
      assert visible[j].name == visible[i].name;
    }
  }

  /** Scopes include both their ends, so neighbours that touch are both visible there without
      nesting, and the shorter one wins although it does not enclose more of the position. */
  lemma NeighboursWitness(a: Binding, b: Binding, bindings: seq<Binding>, offset: Offset)
    requires a.name == b.name && a.kind == b.kind == EventBinding
    requires a.scope == TextRange(0, 9) && b.scope == TextRange(9, 12) && offset == 9
    requires bindings == [a, b] || bindings == [b, a]
    ensures b in AtOffset(bindings, offset) && a !in AtOffset(bindings, offset)
    ensures !b.scope.Within(a.scope) && !a.scope.Within(b.scope)
  {
    assert a in bindings && b in bindings;
    VisibleMembers(bindings, offset, a);
    VisibleMembers(bindings, offset, b);
    forall x | x in Visible(bindings, offset)
      ensures x == a || x == b
    {
      VisibleMembers(bindings, offset, x);
    }
    ShorterWins(Visible(bindings, offset), a, b);
    InnermostWins(bindings, offset, a);
    InnermostWins(bindings, offset, b);
  }

  // ---- The membership test.

  predicate NamedAt(bindings: seq<Binding>, offset: Offset, name: string) {
    exists b :: b in AtOffset(bindings, offset) && b.name == name
  }

  /** A binding of that name declared at the position, outside its own scope. */
  predicate StrayDeclaration(bindings: seq<Binding>, offset: Offset, name: string) {
    exists b :: b in bindings && b.name == name && b.IsDeclarationOffset(offset) && !b.scope.Touches(offset)
  }

  method TwigVueBindingIdentifierIsLocal(bindings: seq<Binding>, offset: Offset, name: string) returns (local: bool)
    ensures local <==> NamedAt(bindings, offset, name) || StrayDeclaration(bindings, offset, name)
  {
    IsNamedIff(bindings, offset, name);
    for i := 0 to |bindings|
      invariant forall k :: 0 <= k < i ==> !(bindings[k].name == name && bindings[k].VisibleAt(offset))
      invariant forall k :: 0 <= k < i ==> !(bindings[k].name == name && bindings[k].IsDeclarationOffset(offset))
    {
      var binding := bindings[i];
      if binding.name != name {
        continue;
      }
      if binding.IsDeclarationOffset(offset) {
        return true;
      }
      if offset < binding.scope.start || offset > binding.scope.end {
        continue;
      }
      if binding.kind == ForBinding && offset >= binding.expression.start && offset <= binding.expression.end {
        continue;
      }
      return true;
    }
    return false;
  }

  /** A name is in the result exactly when some visible binding bears it. */
  lemma IsNamedIff(bindings: seq<Binding>, offset: Offset, name: string)
    ensures NamedAt(bindings, offset, name)
       <==> exists b :: b in bindings && b.name == name && b.VisibleAt(offset)
  {
    var visible := Visible(bindings, offset);
    var k := BestWins(visible, name);
    if b :| b in bindings && b.name == name && b.VisibleAt(offset) {
      VisibleMembers(bindings, offset, b);
      var j :| 0 <= j < |visible| && visible[j] == b;
      InnermostWins(bindings, offset, visible[k]);
    }
    if b :| b in AtOffset(bindings, offset) && b.name == name {
      InnermostWins(bindings, offset, b);
      VisibleMembers(bindings, offset, b);
    }
  }
}
