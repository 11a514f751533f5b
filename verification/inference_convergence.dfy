/** When the in-place inference passes reach a fixed point. */
module InferenceConvergence {
  import opened AdminModel
  import opened TextScan
  import opened TypeText
  import opened CallableType
  import opened MemberInference

  // ---- Writing flow evidence never leaves a weak seed.

  lemma {:induction false} WithoutKeeps(entries: seq<string>, dropped: set<string>)
    ensures forall e :: e in Without(entries, dropped) <==> e in entries && e !in dropped
  {
    if entries != [] {
      var init, e := entries[..|entries| - 1], entries[|entries| - 1];
      assert entries == init + [e];
      WithoutKeeps(init, dropped);
    }
  }

  lemma WeakEntriesHaveNoBar(entry: string)
    requires WeakEntry(entry)
    ensures '|' !in entry
  {
  }

  lemma {:induction false} JoinKeepsInformative(branches: seq<string>)
    requires forall b :: b in branches ==> Branch(b) && b != ""
    requires exists b :: b in branches && !WeakEntry(b)
    ensures exists e :: e in Split(Join(branches), '|') && !WeakEntry(e)
  {
    hide WeakEntry;
    var d := branches[0];
    assert d in branches;
    if |branches| == 1 {
      TrimmedFixed(d);
      assert Split(d, '|') == [d];
      assert d in Split(Join(branches), '|');
    } else {
      var rest := branches[1..];
      assert forall b :: b in rest ==> b in branches;
      assert rest[0] in rest;
      JoinHead(rest);
      SplitJoinHead(d, Join(rest));
      SplitSkipsSpace(Join(rest));
      var pieces := Split(Join(branches), '|');
      if !Clean(d) {
        OpenHeadHasBar(d, Join(rest));
        if WeakEntry(pieces[0]) {
          WeakEntriesHaveNoBar(pieces[0]);
        }
        assert pieces[0] in pieces;
      } else if WeakEntry(d) {
        forall b | b in branches && b != d ensures b in rest {}
        JoinKeepsInformative(rest);
        var e :| e in Split(Join(rest), '|') && !WeakEntry(e);
        assert e in pieces;
      } else {
        assert d in pieces;
      }
    }
  }

  lemma OpenHeadHasBar(d: string, rest: string)
    requires Branch(d) && d != "" && !Clean(d)
    ensures '|' in Split(d + (" | " + rest), '|')[0]
  {
    var end, bar := ScanEnd(d, '|', NEUTRAL), " | " + rest;
    ScanStaysReachable(d, NEUTRAL);
    FirstPieceConcat(d, bar, '|', NEUTRAL);
    BarAfter(end, rest);
    var (raw, tail) := FirstPiece(bar, '|', end);
    var text := d + raw;
    assert text[0] == d[0] && text[|d| + 1] == raw[..2][1];
    TrimRightReaches(text, |d| + 1);
    TrimRightPrefix(text);
    assert Trim(text) == TrimRight(text);
    assert Trim(text)[|d| + 1] == '|';
  }

  lemma FlowNotWeak(initialType: string, assignments: seq<string>)
    requires MergeAssignmentTypes(initialType, assignments) != ""
    ensures !WeakSeed(MergeAssignmentTypes(initialType, assignments))
  {
    var values := assignments + [initialType];
    var alternatives := UnionBranches(values);
    var kept := Without(alternatives, PLACEHOLDERS);
    AllBranchesAre(values);
    DistinctEntries(AllBranches(values));
    WithoutKeeps(alternatives, PLACEHOLDERS);
    var e :| e in alternatives && !WeakEntry(e);
    assert e in kept;
    JoinKeepsInformative(kept);
    JoinTrimmed(kept);
    TrimmedFixed(Join(kept));
  }

  lemma {:induction false} JoinTrimmed(branches: seq<string>)
    requires forall b :: b in branches ==> Trimmed(b) && b != ""
    ensures Trimmed(Join(branches)) && (branches != [] ==> Join(branches) != "")
  {
    if |branches| > 1 {
      var rest := branches[1..];
      assert forall b :: b in rest ==> b in branches;
      assert branches[0] in branches;
      JoinTrimmed(rest);
      var joined := branches[0] + (" | " + Join(rest));
      assert joined[0] == branches[0][0];
      assert joined[|joined| - 1] == Join(rest)[|Join(rest)| - 1];
    } else if |branches| == 1 {
      assert branches[0] in branches;
    }
  }

  // ---- Giving a callable the same return type twice changes nothing.

  lemma {:induction false} MatchFromPrefix(rest: string, more: string, st: MatchScan)
    requires MatchFrom(rest, '(', ')', st) >= 0
    ensures MatchFrom(rest[..MatchFrom(rest, '(', ')', st) + 1] + more, '(', ')', st) == MatchFrom(rest, '(', ')', st)
  {
    var i := MatchFrom(rest, '(', ')', st);
    var kept := rest[..i + 1] + more;
    var next := st.Consume(rest[0], '(', ')');
    assert kept[0] == rest[0];
    if !(!st.quoted && !IsQuote(rest[0]) && rest[0] != '(' && rest[0] == ')' && next.depth == 0) {
      MatchFromPrefix(rest[1..], more, next);
      assert kept[1..] == rest[1..][..i] + more;
    }
  }

  lemma CallableTwice(signature: string, returnType: string)
    ensures CallableWithReturnType(CallableWithReturnType(signature, returnType), returnType)
         == CallableWithReturnType(signature, returnType)
  {
    var value := Trim(signature);
    TrimIdempotent(signature);
    if value == "" {
      EmptyCallable(returnType);
    } else if value[0] == '(' {
      assert value[0..] == value;
      var close := MatchingDelimiter(value, 0, '(', ')');
      if close >= 0 {
        TrimmedFixed(value[..close + 1]);
        HeadKept(value, returnType, close);
      }
    }
  }

  lemma EmptyCallable(returnType: string)
    ensures CallableWithReturnType("() => " + returnType, returnType) == "() => " + returnType
  {
    var head, tail := "()", " => " + returnType;
    assert head[0..] == head;
    assert MatchFrom(head, '(', ')', NEUTRAL_MATCH) == 1 by {
      assert head[1..] == ")";
    }
    HeadKept(head, returnType, 1);
    assert head[..2] == head;
    assert head + tail == "() => " + returnType;
  }

  lemma HeadKept(value: string, returnType: string, close: nat)
    requires value != "" && value[0] == '(' && MatchingDelimiter(value, 0, '(', ')') == close
    ensures var text := value[..close + 1] + (" => " + returnType); CallableWithReturnType(text, returnType) == text
  {
    hide MatchFrom;
    var head, tail := value[..close + 1], " => " + returnType;
    var text := head + tail;
    assert head[0] == '(' && head[close] == ')';
    assert text[0] == '(' && text[close] == ')';
    TrimRightReaches(text, close);
    TrimRightPrefix(text);
    var trimmed := Trim(text);
    assert trimmed == TrimRight(text);
    var more := trimmed[close + 1..];
    assert trimmed[..close + 1] == head by {
      assert trimmed == text[..|trimmed|];
    }
    Rejoin(trimmed, close + 1);
    assert value[0..] == value && trimmed[0..] == trimmed;
    MatchFromPrefix(value, more, NEUTRAL_MATCH);
    TrimmedFixed(head);
  }

  // ---- A member's own update settles once its dependencies have.

  /** The type found never depends on the reading context; only the reported context may. */
  lemma {:induction false} ResolveContextBlind(index: TypeIndex, c: Component, e: TypeExpression, p: string, q: string)
    ensures var a, b := Resolve(index, c, e, p), Resolve(index, c, e, q);
            && a.found == b.found && a.resolved.resolvedType == b.resolved.resolvedType
            && a.resolved.openShape == b.resolved.openShape
            && (a.resolved.contextPath == "" ==> b.resolved.contextPath == "" || b.resolved.contextPath == q)
  {
    if e.Nullish? {
      ResolveContextBlind(index, c, e.left, p, q);
      ResolveContextBlind(index, c, e.right, p, q);
    }
  }

  /** Reading again in the reported context reports that context. */
  lemma {:induction false} ContextSettles(index: TypeIndex, c: Component, e: TypeExpression, p: string)
    ensures var r := Resolve(index, c, e, p).resolved.contextPath;
            r != "" ==> Resolve(index, c, e, r).resolved.contextPath == r
  {
    if e.Nullish? {
      var r := Resolve(index, c, e, p).resolved.contextPath;
      ContextSettles(index, c, e.left, p);
      ContextSettles(index, c, e.right, p);
      ResolveContextBlind(index, c, e.left, p, r);
    }
  }

  lemma InferredTwice(index: TypeIndex, c: Component, m: Member)
    ensures Inferred(index, c, Inferred(index, c, m)) == Inferred(index, c, m)
  {
    var e, own := Parsed(index, m.sourceExpression), TypeContext(m, c);
    var answer, once := Resolve(index, c, e, own), Inferred(index, c, m);
    if once != m {
      var r := answer.resolved;
      var own' := TypeContext(once, c);
      assert own' == if r.contextPath != "" then r.contextPath else own;
      ContextSettles(index, c, e, own);
      ResolveContextBlind(index, c, e, own, own');
      if m.kind.MethodMember? {
        CallableTwice(m.memberType, r.resolvedType);
      }
    }
  }

  lemma {:induction false} EvidenceContextBlind(index: TypeIndex, c: Component, writes: seq<Assignment>, p: string, q: string)
    ensures var a, b := WriteEvidence(index, c, writes, p), WriteEvidence(index, c, writes, q);
            a.types == b.types && a.openShape == b.openShape
  {
    if writes != [] {
      var w := writes[|writes| - 1];
      EvidenceContextBlind(index, c, writes[..|writes| - 1], p, q);
      if w.filePath == "" {
        ResolveContextBlind(index, c, Parsed(index, w.expression), p, q);
      }
    }
  }

  /** Evidence laid on a member whose type it already produced changes nothing more. */
  lemma FlowTwice(m: Member, s: string, a: Evidence, b: Evidence)
    requires a.types == b.types && a.openShape == b.openShape && WeakSeed(s)
    ensures WithFlow(WithFlow(m, s, a), s, b) == WithFlow(m, s, a)
  {
  }

  /** A written data member whose weak type is all that is known of its initial value keeps it:
      the flow type with that seed says the same as without, or the writes alone say nothing. */
  predicate KeepsSeed(index: TypeIndex, c: Component, m: Member) {
    var writes := Writes(c.assignments, m.name);
    var types := WriteEvidence(index, c, writes, TypeContext(m, c)).types;
    var seeded, unseeded := MergeAssignmentTypes(m.memberType, types), MergeAssignmentTypes("", types);
    m.kind.DataMember? && writes != [] && SourceType(index, c, m) == "" && WeakSeed(m.memberType) && seeded != "" ==>
      unseeded == "" || unseeded == seeded
  }

  /** What a pass makes of a member whose dependencies do not change any more. */
  function Stepped(index: TypeIndex, c: Component, m: Member): Member {
    Flowed(index, c, Inferred(index, c, m))
  }

  predicate Fixed(index: TypeIndex, c: Component, m: Member) {
    Inferred(index, c, m) == m && Flowed(index, c, m) == m
  }

  predicate Written(c: Component, m: Member) {
    m.kind.DataMember? && Writes(c.assignments, m.name) != []
  }

  lemma SourceTypeStays(index: TypeIndex, c: Component, m: Member, other: Member)
    requires SameSkeleton(m, other)
    ensures SourceType(index, c, other) == SourceType(index, c, m)
  {
    if m.sourceExpression != "" {
      ResolveContextBlind(index, c, Parsed(index, m.sourceExpression), TypeContext(m, c), TypeContext(other, c));
    }
  }

  lemma FlowedIs(index: TypeIndex, c: Component, m: Member, s: string)
    requires Written(c, m) && s == InitialType(index, c, m)
    ensures Flowed(index, c, m) == WithFlow(m, s, WriteEvidence(index, c, Writes(c.assignments, m.name), TypeContext(m, c)))
  {
  }

  /** Dependencies given, a pass fixes a member exactly when the member keeps its seed. */
  lemma SteppedIsFixedIff(index: TypeIndex, c: Component, m: Member)
    ensures Fixed(index, c, Stepped(index, c, m)) <==> KeepsSeed(index, c, m)
  {
    InferredTwice(index, c, m);
    UpdatesKeepSkeleton(index, c, m);
    if Written(c, m) {
      if SourceType(index, c, m) != "" {
        ResolvedIsFixed(index, c, m, SourceType(index, c, m));
      } else {
        UnresolvedIsFixedIff(index, c, m);
      }
    }
  }

  lemma InferredResolved(index: TypeIndex, c: Component, m: Member, r: string)
    requires m.kind.DataMember? && r == SourceType(index, c, m) != ""
    ensures Inferred(index, c, m).memberType == if WeakSeed(m.memberType) then r else m.memberType
  {
  }

  lemma InferredUnresolved(index: TypeIndex, c: Component, m: Member)
    requires SourceType(index, c, m) == ""
    ensures Inferred(index, c, m) == m
  {
  }

  lemma ResolvedIsFixed(index: TypeIndex, c: Component, m: Member, r: string)
    requires Written(c, m) && r == SourceType(index, c, m) != ""
    ensures Fixed(index, c, Stepped(index, c, m))
  {
    var first, once := Inferred(index, c, m), Stepped(index, c, m);
    var writes := Writes(c.assignments, m.name);
    var p, q := TypeContext(first, c), TypeContext(once, c);
    InferredTwice(index, c, m);
    InferredResolved(index, c, m, r);
    UpdatesKeepSkeleton(index, c, m);
    UpdatesKeepSkeleton(index, c, first);
    SourceTypeStays(index, c, m, first);
    SourceTypeStays(index, c, first, once);
    FlowedIs(index, c, first, r);
    FlowedIs(index, c, once, r);
    EvidenceContextBlind(index, c, writes, p, q);
    if !WeakSeed(r) {
      NotWeakNotEmpty(first.memberType);
    }
    FlowSettles(index, c, first, once, r, WriteEvidence(index, c, writes, p), WriteEvidence(index, c, writes, q));
  }

  lemma UnresolvedIsFixedIff(index: TypeIndex, c: Component, m: Member)
    requires Written(c, m) && SourceType(index, c, m) == ""
    ensures Fixed(index, c, Stepped(index, c, m)) <==> KeepsSeed(index, c, m)
  {
    InferredUnresolved(index, c, m);
    var s := InitialType(index, c, m);
    var once := Flowed(index, c, m);
    var writes := Writes(c.assignments, m.name);
    var p, q := TypeContext(m, c), TypeContext(once, c);
    var a, b := WriteEvidence(index, c, writes, p), WriteEvidence(index, c, writes, q);
    UpdatesKeepSkeleton(index, c, m);
    SourceTypeStays(index, c, m, once);
    InferredUnresolved(index, c, once);
    EvidenceContextBlind(index, c, writes, p, q);
    FlowedIs(index, c, m, s);
    FlowedIs(index, c, once, InitialType(index, c, once));
    var flow := MergeAssignmentTypes(s, a.types);
    if flow != "" {
      FlowNotWeak(s, a.types);
      SeedDropped(m, once, s, a, b);
    }
  }

  lemma SteppedKeepsSeed(index: TypeIndex, c: Component, m: Member)
    ensures KeepsSeed(index, c, Stepped(index, c, m))
  {
    var first, once := Inferred(index, c, m), Stepped(index, c, m);
    UpdatesKeepSkeleton(index, c, m);
    UpdatesKeepSkeleton(index, c, first);
    if Written(c, m) {
      SourceTypeStays(index, c, m, first);
      SourceTypeStays(index, c, first, once);
      if SourceType(index, c, m) == "" {
        InferredUnresolved(index, c, m);
        UnresolvedKeeps(index, c, m);
      }
    }
  }

  lemma UnresolvedKeeps(index: TypeIndex, c: Component, m: Member)
    requires Written(c, m) && SourceType(index, c, m) == ""
    ensures KeepsSeed(index, c, Flowed(index, c, m))
  {
    hide Resolve, WriteEvidence, Writes, MergeAssignmentTypes, WeakSeed, TypeContext;
    var s, once := InitialType(index, c, m), Flowed(index, c, m);
    var writes := Writes(c.assignments, m.name);
    UpdatesKeepSkeleton(index, c, m);
    EvidenceContextBlind(index, c, writes, TypeContext(m, c), TypeContext(once, c));
    FlowedIs(index, c, m, s);
    if MergeAssignmentTypes(s, WriteEvidence(index, c, writes, TypeContext(m, c)).types) != "" {
      FlowNotWeak(s, WriteEvidence(index, c, writes, TypeContext(m, c)).types);
    }
  }

  /** The second flow step of a member that got a type from the first: the seed is gone. */
  lemma SeedDropped(m: Member, once: Member, s: string, a: Evidence, b: Evidence)
    requires WeakSeed(s) && (s == m.memberType || (s == "" && !WeakSeed(m.memberType)))
    requires once == WithFlow(m, s, a) && a.types == b.types && a.openShape == b.openShape
    requires MergeAssignmentTypes(s, a.types) != "" && !WeakSeed(MergeAssignmentTypes(s, a.types))
    ensures once.memberType == MergeAssignmentTypes(s, a.types)
    ensures WithFlow(once, "", b) == once
       <==> MergeAssignmentTypes("", a.types) == "" || MergeAssignmentTypes("", a.types) == MergeAssignmentTypes(s, a.types)
  {
  }

  lemma FlowSettles(index: TypeIndex, c: Component, first: Member, once: Member, s: string, a: Evidence, b: Evidence)
    requires first.kind.DataMember? && Inferred(index, c, first) == first
    requires once == WithFlow(first, s, a) && a.types == b.types && a.openShape == b.openShape
    requires WeakSeed(s) || (!WeakSeed(first.memberType) && first.memberType != "")
    ensures Inferred(index, c, once) == once && WithFlow(once, s, b) == once
  {
    if WeakSeed(s) {
      FlowTwice(first, s, a, b);
      var flow := MergeAssignmentTypes(s, a.types);
      if flow != "" {
        FlowNotWeak(s, a.types);
        NotWeakNotEmpty(flow);
        assert once.memberType == flow;
      } else {
        ShapeBlind(index, c, first, once);
      }
    }
  }

  lemma NotWeakNotEmpty(t: string)
    requires !WeakSeed(t)
    ensures t != "" && Trim(t) != ""
  {
  }

  /** An open shape already recorded does not make the inference change a settled member. */
  lemma ShapeBlind(index: TypeIndex, c: Component, settled: Member, shaped: Member)
    requires Inferred(index, c, settled) == settled
    requires shaped == settled.(openRuntimeShape := shaped.openRuntimeShape)
    ensures Inferred(index, c, shaped) == shaped
  {
    assert TypeContext(shaped, c) == TypeContext(settled, c);
  }

  // ---- Components that differ only in what the passes update.

  ghost predicate SameSkeleton(a: Member, b: Member) {
    b == a.(memberType := b.memberType, openRuntimeShape := b.openRuntimeShape, typeContextPath := b.typeContextPath)
  }

  ghost predicate Alike(c: Component, d: Component) {
    && d == c.(members := d.members) && |c.members| == |d.members|
    && forall i :: 0 <= i < |c.members| ==> SameSkeleton(c.members[i], d.members[i])
  }

  function Roots(e: TypeExpression): set<string> {
    match e
    case Chain(root, _) => {root}
    case Nullish(left, right) => Roots(left) + Roots(right)
    case _ => {}
  }

  function WriteRoots(index: TypeIndex, writes: seq<Assignment>): set<string> {
    if writes == [] then {}
    else WriteRoots(index, writes[..|writes| - 1]) + Roots(Parsed(index, writes[|writes| - 1].expression))
  }

  /** The member names one member's type is computed from. */
  function Dependencies(index: TypeIndex, c: Component, m: Member): set<string> {
    (if m.sourceExpression == "" then {} else Roots(Parsed(index, m.sourceExpression)))
    + if m.kind.DataMember? then WriteRoots(index, Writes(c.assignments, m.name)) else {}
  }

  ghost predicate AgreeOn(c: Component, d: Component, names: set<string>) {
    Alike(c, d) && forall j :: 0 <= j < |c.members| && c.members[j].name in names ==> c.members[j] == d.members[j]
  }

  lemma {:induction false} FirstNamedAgrees(a: seq<Member>, b: seq<Member>, name: string)
    requires |a| == |b| && forall i :: 0 <= i < |a| ==> a[i].name == b[i].name
    ensures FirstNamed(a, name) == FirstNamed(b, name)
  {
    if a != [] && a[0].name != name {
      FirstNamedAgrees(a[1..], b[1..], name);
    }
  }

  lemma RootAgrees(c: Component, d: Component, name: string)
    requires AgreeOn(c, d, {name})
    ensures RootMember(c, name) == RootMember(d, name)
  {
    FirstNamedAgrees(c.members, d.members, name);
    var i := FirstNamed(c.members, name);
    if i < |c.members| {
      assert NamedLater(c.members, i, name) <==> NamedLater(d.members, i, name);
    }
  }

  lemma {:induction false} ResolveAgrees(index: TypeIndex, c: Component, d: Component, e: TypeExpression, p: string)
    requires AgreeOn(c, d, Roots(e))
    ensures Resolve(index, c, e, p) == Resolve(index, d, e, p)
  {
    if e.Nullish? {
      ResolveAgrees(index, c, d, e.left, p);
      ResolveAgrees(index, c, d, e.right, p);
    } else if e.Chain? {
      RootAgrees(c, d, e.root);
    }
  }

  lemma {:induction false} EvidenceAgrees(index: TypeIndex, c: Component, d: Component, writes: seq<Assignment>, p: string)
    requires AgreeOn(c, d, WriteRoots(index, writes))
    ensures WriteEvidence(index, c, writes, p) == WriteEvidence(index, d, writes, p)
  {
    if writes != [] {
      var w := writes[|writes| - 1];
      EvidenceAgrees(index, c, d, writes[..|writes| - 1], p);
      ResolveAgrees(index, c, d, Parsed(index, w.expression), if w.filePath == "" then p else w.filePath);
    }
  }

  lemma InferredAgrees(index: TypeIndex, c: Component, d: Component, m: Member)
    requires AgreeOn(c, d, Dependencies(index, c, m))
    ensures Inferred(index, c, m) == Inferred(index, d, m)
  {
    if m.sourceExpression != "" {
      ResolveAgrees(index, c, d, Parsed(index, m.sourceExpression), TypeContext(m, c));
    }
  }

  lemma FlowedAgrees(index: TypeIndex, c: Component, d: Component, m: Member)
    requires AgreeOn(c, d, Dependencies(index, c, m))
    ensures Flowed(index, c, m) == Flowed(index, d, m)
  {
    if m.kind.DataMember? {
      EvidenceAgrees(index, c, d, Writes(c.assignments, m.name), TypeContext(m, c));
      if m.sourceExpression != "" {
        ResolveAgrees(index, c, d, Parsed(index, m.sourceExpression), TypeContext(m, c));
      }
    }
  }

  lemma UpdatesKeepSkeleton(index: TypeIndex, c: Component, m: Member)
    ensures SameSkeleton(m, Inferred(index, c, m)) && SameSkeleton(m, Flowed(index, c, m))
  {
  }

  lemma {:induction false} InferUpToAlike(index: TypeIndex, c: Component, n: nat)
    requires n <= |c.members|
    ensures Alike(c, InferUpTo(index, c, n))
  {
    if n > 0 {
      InferUpToAlike(index, c, n - 1);
      var d := InferUpTo(index, c, n - 1);
      UpdatesKeepSkeleton(index, d, d.members[n - 1]);
      StaticsKept(index, c, n);
    }
  }

  lemma {:induction false} FlowUpToAlike(index: TypeIndex, c: Component, n: nat)
    requires n <= |c.members|
    ensures Alike(c, FlowUpTo(index, c, n))
  {
    hide Inferred;
    if n > 0 {
      FlowUpToAlike(index, c, n - 1);
      var d := FlowUpTo(index, c, n - 1);
      UpdatesKeepSkeleton(index, d, d.members[n - 1]);
      FlowStaticsKept(index, c, n);
    }
  }

  // ---- Members of low rank go through a pass alike.

  /** Every member that a member's type depends on has a smaller rank: no forwarding or
      assignment cycle. */
  ghost predicate Ranked(index: TypeIndex, c: Component, rank: seq<nat>) {
    && |rank| == |c.members|
    && forall i, j :: 0 <= i < |rank| && 0 <= j < |rank| && c.members[j].name in Dependencies(index, c, c.members[i])
         ==> rank[j] < rank[i]
  }

  ghost predicate AgreeBelow(c: Component, d: Component, rank: seq<nat>, k: nat) {
    && Alike(c, d) && |rank| == |c.members|
    && forall i :: 0 <= i < |rank| && rank[i] < k ==> c.members[i] == d.members[i]
  }

  lemma DependenciesAlike(index: TypeIndex, c: Component, d: Component, i: nat)
    requires Alike(c, d) && i < |c.members|
    ensures Dependencies(index, c, c.members[i]) == Dependencies(index, d, d.members[i])
  {
    assert SameSkeleton(c.members[i], d.members[i]);
  }

  lemma RankedAlike(index: TypeIndex, c: Component, d: Component, rank: seq<nat>)
    requires Ranked(index, c, rank) && Alike(c, d)
    ensures Ranked(index, d, rank)
  {
    forall i, j | 0 <= i < |rank| && 0 <= j < |rank| && d.members[j].name in Dependencies(index, d, d.members[i])
      ensures rank[j] < rank[i]
    {
      DependenciesAlike(index, c, d, i);
      assert SameSkeleton(c.members[j], d.members[j]);
    }
  }

  /** Agreement below a member's rank is agreement on what it depends on. */
  lemma AgreeBelowCovers(index: TypeIndex, c: Component, d: Component, rank: seq<nat>, k: nat, i: nat)
    requires Ranked(index, c, rank) && AgreeBelow(c, d, rank, k) && i < |rank| && rank[i] <= k
    ensures AgreeOn(c, d, Dependencies(index, c, c.members[i]))
  {
  }

  lemma {:induction false} InferUpToAgrees(index: TypeIndex, c: Component, d: Component, rank: seq<nat>, k: nat, n: nat)
    requires Ranked(index, c, rank) && AgreeBelow(c, d, rank, k) && n <= |c.members|
    ensures AgreeBelow(InferUpTo(index, c, n), InferUpTo(index, d, n), rank, k)
  {
    if n > 0 {
      var i := n - 1;
      InferUpToAgrees(index, c, d, rank, k, i);
      var x, y := InferUpTo(index, c, i), InferUpTo(index, d, i);
      InferUpToAlike(index, c, i);
      RankedAlike(index, c, x, rank);
      UpdatesKeepSkeleton(index, x, x.members[i]);
      UpdatesKeepSkeleton(index, y, y.members[i]);
      if rank[i] < k {
        AgreeBelowCovers(index, x, y, rank, k, i);
        InferredAgrees(index, x, y, x.members[i]);
      }
      InferAtAgrees(index, x, y, rank, k, i);
    }
  }

  lemma InferAtAgrees(index: TypeIndex, x: Component, y: Component, rank: seq<nat>, k: nat, i: nat)
    requires AgreeBelow(x, y, rank, k) && i < |rank|
    requires rank[i] < k ==> Inferred(index, x, x.members[i]) == Inferred(index, y, y.members[i])
    ensures AgreeBelow(InferAt(index, x, i), InferAt(index, y, i), rank, k)
  {
    UpdatesKeepSkeleton(index, x, x.members[i]);
    UpdatesKeepSkeleton(index, y, y.members[i]);
    assert SameSkeleton(x.members[i], y.members[i]);
  }

  lemma FlowAtAgrees(index: TypeIndex, x: Component, y: Component, rank: seq<nat>, k: nat, i: nat)
    requires AgreeBelow(x, y, rank, k) && i < |rank|
    requires rank[i] < k ==> Flowed(index, x, x.members[i]) == Flowed(index, y, y.members[i])
    ensures AgreeBelow(FlowAt(index, x, i), FlowAt(index, y, i), rank, k)
  {
    UpdatesKeepSkeleton(index, x, x.members[i]);
    UpdatesKeepSkeleton(index, y, y.members[i]);
    assert SameSkeleton(x.members[i], y.members[i]);
  }

  lemma FlowedBelowAgrees(index: TypeIndex, x: Component, y: Component, rank: seq<nat>, k: nat, i: nat)
    requires Ranked(index, x, rank) && AgreeBelow(x, y, rank, k) && i < |rank|
    ensures rank[i] < k ==> Flowed(index, x, x.members[i]) == Flowed(index, y, y.members[i])
  {
    if rank[i] < k {
      AgreeBelowCovers(index, x, y, rank, k, i);
      FlowedAgrees(index, x, y, x.members[i]);
    }
  }

  lemma {:induction false} FlowUpToAgrees(index: TypeIndex, c: Component, d: Component, rank: seq<nat>, k: nat, n: nat)
    requires Ranked(index, c, rank) && AgreeBelow(c, d, rank, k) && n <= |c.members|
    ensures AgreeBelow(FlowUpTo(index, c, n), FlowUpTo(index, d, n), rank, k)
  {
    if n > 0 {
      var i := n - 1;
      FlowUpToAgrees(index, c, d, rank, k, i);
      var x, y := FlowUpTo(index, c, i), FlowUpTo(index, d, i);
      FlowUpToAlike(index, c, i);
      RankedAlike(index, c, x, rank);
      FlowedBelowAgrees(index, x, y, rank, k, i);
      FlowAtAgrees(index, x, y, rank, k, i);
    }
  }

  lemma PassAlike(index: TypeIndex, c: Component)
    ensures Alike(c, Pass(index, c))
  {
    var n := |c.members|;
    var between := InferUpTo(index, c, n);
    InferUpToAlike(index, c, n);
    FlowUpToAlike(index, between, n);
    AlikeTransitive(c, between, Pass(index, c));
  }

  lemma AlikeTransitive(a: Component, b: Component, c: Component)
    requires Alike(a, b) && Alike(b, c)
    ensures Alike(a, c)
  {
    forall i | 0 <= i < |a.members| ensures SameSkeleton(a.members[i], c.members[i]) {
      assert SameSkeleton(a.members[i], b.members[i]) && SameSkeleton(b.members[i], c.members[i]);
    }
  }

  lemma PassAgrees(index: TypeIndex, c: Component, d: Component, rank: seq<nat>, k: nat)
    requires Ranked(index, c, rank) && AgreeBelow(c, d, rank, k)
    ensures AgreeBelow(Pass(index, c), Pass(index, d), rank, k)
  {
    var n := |c.members|;
    InferUpToAgrees(index, c, d, rank, k, n);
    InferUpToAlike(index, c, n);
    RankedAlike(index, c, InferUpTo(index, c, n), rank);
    FlowUpToAgrees(index, InferUpTo(index, c, n), InferUpTo(index, d, n), rank, k, n);
  }

  // ---- Convergence.

  /** What a pass does to one member: its inference step as the first loop reaches it, then its
      flow step as the second loop reaches it. */
  lemma PassAt(index: TypeIndex, c: Component, i: nat)
    requires i < |c.members|
    ensures var between := InferUpTo(index, c, |c.members|);
            Pass(index, c).members[i]
            == Flowed(index, FlowUpTo(index, between, i), Inferred(index, InferUpTo(index, c, i), c.members[i]))
  {
    var n := |c.members|;
    var between := InferUpTo(index, c, n);
    InferElsewhere(index, c, i, i);
    InferElsewhere(index, c, n, i);
    FlowElsewhere(index, between, i, i);
    FlowElsewhere(index, between, n, i);
  }

  lemma {:induction false} InferElsewhere(index: TypeIndex, c: Component, n: nat, i: nat)
    requires n <= |c.members| && i < |c.members|
    ensures InferUpTo(index, c, n).members[i]
         == if i < n then Inferred(index, InferUpTo(index, c, i), c.members[i]) else c.members[i]
  {
    if n > 0 { InferElsewhere(index, c, n - 1, i); }
  }

  lemma {:induction false} FlowElsewhere(index: TypeIndex, c: Component, n: nat, i: nat)
    requires n <= |c.members| && i < |c.members|
    ensures FlowUpTo(index, c, n).members[i]
         == if i < n then Flowed(index, FlowUpTo(index, c, i), c.members[i]) else c.members[i]
  {
    if n > 0 { FlowElsewhere(index, c, n - 1, i); }
  }

  /** One more pass changes no member of rank below k, neither in its first nor in its second loop. */
  ghost predicate Settled(index: TypeIndex, c: Component, rank: seq<nat>, k: nat) {
    AgreeBelow(c, InferUpTo(index, c, |c.members|), rank, k) && AgreeBelow(c, Pass(index, c), rank, k)
  }

  lemma SettledFromZero(index: TypeIndex, c: Component, rank: seq<nat>)
    requires Ranked(index, c, rank)
    ensures SettledAfter(index, c, rank, 0, 0)
  {
    InferUpToAlike(index, c, |c.members|);
    PassAlike(index, c);
  }

  /** Both loops meet the settled members as they are. */
  lemma LoopsMeetSettled(index: TypeIndex, c: Component, rank: seq<nat>, k: nat, i: nat)
    requires Settled(index, c, rank, k) && i < |c.members|
    ensures AgreeBelow(c, InferUpTo(index, c, i), rank, k)
    ensures AgreeBelow(c, FlowUpTo(index, InferUpTo(index, c, |c.members|), i), rank, k)
  {
    var n := |c.members|;
    var between := InferUpTo(index, c, n);
    InferUpToAlike(index, c, i);
    InferUpToAlike(index, c, n);
    FlowUpToAlike(index, between, i);
    AlikeTransitive(c, between, FlowUpTo(index, between, i));
    forall j | 0 <= j < n && rank[j] < k
      ensures InferUpTo(index, c, i).members[j] == c.members[j]
      ensures FlowUpTo(index, between, i).members[j] == c.members[j]
    {
      InferElsewhere(index, c, i, j);
      InferElsewhere(index, c, n, j);
      FlowElsewhere(index, between, i, j);
      FlowElsewhere(index, between, n, j);
    }
  }

  /** So a pass over settled dependencies is one step of the member. */
  lemma PassIsStep(index: TypeIndex, c: Component, rank: seq<nat>, k: nat, i: nat)
    requires Ranked(index, c, rank) && Settled(index, c, rank, k) && i < |c.members| && rank[i] <= k
    ensures InferUpTo(index, c, |c.members|).members[i] == Inferred(index, c, c.members[i])
    ensures Pass(index, c).members[i] == Stepped(index, c, c.members[i])
  {
    var n, m := |c.members|, c.members[i];
    var between := InferUpTo(index, c, n);
    var c1, c2 := InferUpTo(index, c, i), FlowUpTo(index, between, i);
    LoopsMeetSettled(index, c, rank, k, i);
    PassAt(index, c, i);
    InferElsewhere(index, c, n, i);
    AgreeBelowCovers(index, c, c1, rank, k, i);
    InferredAgrees(index, c, c1, m);
    UpdatesKeepSkeleton(index, c, m);
    SkeletonDependencies(index, c, m, Inferred(index, c, m));
    AgreeBelowCovers(index, c, c2, rank, k, i);
    FlowedAgrees(index, c, c2, Inferred(index, c, m));
  }

  lemma SkeletonDependencies(index: TypeIndex, c: Component, m: Member, other: Member)
    requires SameSkeleton(m, other)
    ensures Dependencies(index, c, other) == Dependencies(index, c, m)
  {
  }

  /** What is settled stays settled. */
  lemma SettledStays(index: TypeIndex, c: Component, rank: seq<nat>, k: nat)
    requires Ranked(index, c, rank) && Settled(index, c, rank, k)
    ensures Settled(index, Pass(index, c), rank, k)
  {
    var d := Pass(index, c);
    PassAgrees(index, c, d, rank, k);
    InferUpToAgrees(index, c, d, rank, k, |c.members|);
    InferUpToAlike(index, d, |d.members|);
    PassAlike(index, d);
  }

  /** A member's step over two components that agree on what it depends on. */
  lemma StepAgrees(index: TypeIndex, c: Component, d: Component, m: Member)
    requires AgreeOn(c, d, Dependencies(index, c, m))
    ensures Stepped(index, d, m) == Stepped(index, c, m) && Fixed(index, d, m) == Fixed(index, c, m)
    ensures Inferred(index, d, m) == Inferred(index, c, m)
    ensures KeepsSeed(index, d, m) == KeepsSeed(index, c, m)
  {
    var first := Inferred(index, c, m);
    InferredAgrees(index, c, d, m);
    FlowedAgrees(index, c, d, m);
    UpdatesKeepSkeleton(index, c, m);
    SkeletonDependencies(index, c, m, first);
    FlowedAgrees(index, c, d, first);
    SeedAgrees(index, c, d, m);
  }

  lemma SeedAgrees(index: TypeIndex, c: Component, d: Component, m: Member)
    requires AgreeOn(c, d, Dependencies(index, c, m))
    ensures KeepsSeed(index, d, m) == KeepsSeed(index, c, m)
  {
    if m.kind.DataMember? {
      EvidenceAgrees(index, c, d, Writes(c.assignments, m.name), TypeContext(m, c));
      if m.sourceExpression != "" {
        ResolveAgrees(index, c, d, Parsed(index, m.sourceExpression), TypeContext(m, c));
      }
    }
  }

  /** A member of the rank at hand is settled by the pass exactly when the pass fixes it. */
  lemma MemberSettlesIff(index: TypeIndex, c: Component, rank: seq<nat>, k: nat, i: nat)
    requires Ranked(index, c, rank) && Settled(index, c, rank, k) && i < |c.members| && rank[i] == k
    ensures var d := Pass(index, c);
            && (InferUpTo(index, d, |d.members|).members[i] == d.members[i] && Pass(index, d).members[i] == d.members[i]
                <==> KeepsSeed(index, c, c.members[i]))
            && KeepsSeed(index, d, d.members[i])
  {
    var d, m := Pass(index, c), c.members[i];
    var once := Stepped(index, c, m);
    PassIsStep(index, c, rank, k, i);
    PassAlike(index, c);
    RankedAlike(index, c, d, rank);
    SettledStays(index, c, rank, k);
    PassIsStep(index, d, rank, k, i);
    AgreeBelowCovers(index, c, d, rank, k, i);
    UpdatesKeepSkeleton(index, c, m);
    UpdatesKeepSkeleton(index, c, Inferred(index, c, m));
    SkeletonDependencies(index, c, m, once);
    StepAgrees(index, c, d, once);
    SteppedIsFixedIff(index, c, m);
    SteppedKeepsSeed(index, c, m);
  }

  ghost predicate SeedsKeptAt(index: TypeIndex, c: Component, rank: seq<nat>, k: nat) {
    |rank| == |c.members| && forall i :: 0 <= i < |rank| && rank[i] == k ==> KeepsSeed(index, c, c.members[i])
  }

  /** Once everything below rank k is settled, one more pass settles rank k exactly when the
      members of that rank keep their seeds; and none loses a seed twice. */
  lemma RankSettlesIff(index: TypeIndex, c: Component, rank: seq<nat>, k: nat)
    requires Ranked(index, c, rank) && Settled(index, c, rank, k)
    ensures Settled(index, Pass(index, c), rank, k + 1) <==> SeedsKeptAt(index, c, rank, k)
    ensures SeedsKeptAt(index, Pass(index, c), rank, k)
  {
    var d := Pass(index, c);
    SettledStays(index, c, rank, k);
    forall i | 0 <= i < |rank| && rank[i] == k
      ensures SettledAt(index, d, i) <==> KeepsSeed(index, c, c.members[i])
      ensures KeepsSeed(index, d, d.members[i])
    {
      MemberSettlesIff(index, c, rank, k, i);
    }
    SettledNext(index, d, rank, k);
  }

  ghost predicate SettledAt(index: TypeIndex, d: Component, i: nat)
    requires i < |d.members|
  {
    InferUpTo(index, d, |d.members|).members[i] == d.members[i] && Pass(index, d).members[i] == d.members[i]
  }

  lemma SettledNext(index: TypeIndex, d: Component, rank: seq<nat>, k: nat)
    requires Settled(index, d, rank, k)
    ensures Settled(index, d, rank, k + 1) <==> forall i :: 0 <= i < |rank| && rank[i] == k ==> SettledAt(index, d, i)
  {
    var between, after := InferUpTo(index, d, |d.members|), Pass(index, d);
    if Settled(index, d, rank, k + 1) {
      forall i | 0 <= i < |rank| && rank[i] == k
        ensures SettledAt(index, d, i)
      {
        assert rank[i] < k + 1;
      }
    }
    if forall i :: 0 <= i < |rank| && rank[i] == k ==> SettledAt(index, d, i) {
      forall i | 0 <= i < |rank| && rank[i] < k + 1
        ensures d.members[i] == between.members[i] && d.members[i] == after.members[i]
      {
        if rank[i] == k { assert SettledAt(index, d, i); }
      }
    }
  }

  lemma {:induction false} PassesRanked(index: TypeIndex, c: Component, rank: seq<nat>, n: nat)
    requires Ranked(index, c, rank)
    ensures Ranked(index, Passes(index, c, n), rank)
  {
    hide Pass, Ranked, Alike;
    if n > 0 {
      var d := Passes(index, c, n - 1);
      PassesRanked(index, c, rank, n - 1);
      PassesStep(index, c, n);
      PassAlike(index, d);
      RankedAlike(index, d, Pass(index, d), rank);
    }
  }

  /** After every number of passes up to n, the ranks below that number are settled. */
  ghost predicate OnSchedule(index: TypeIndex, c: Component, rank: seq<nat>, n: nat) {
    forall k :: 0 <= k <= n ==> SettledAfter(index, c, rank, k, k)
  }

  /** After some passes the ranks below k are settled. */
  ghost predicate SettledAfter(index: TypeIndex, c: Component, rank: seq<nat>, passes: nat, k: nat) {
    Settled(index, Passes(index, c, passes), rank, k)
  }

  /** Every member keeps its seed in the pass that finds its dependencies settled. */
  ghost predicate SeedsKept(index: TypeIndex, c: Component, rank: seq<nat>, n: nat) {
    forall k :: 0 <= k < n ==> KeptAfter(index, c, rank, k, k)
  }

  ghost predicate KeptAfter(index: TypeIndex, c: Component, rank: seq<nat>, passes: nat, k: nat) {
    SeedsKeptAt(index, Passes(index, c, passes), rank, k)
  }

  /** One pass a rank is enough exactly when no member loses its seed on the way. */
  lemma {:induction false} OnScheduleIff(index: TypeIndex, c: Component, rank: seq<nat>, n: nat)
    requires Ranked(index, c, rank)
    ensures OnSchedule(index, c, rank, n) <==> SeedsKept(index, c, rank, n)
  {
    hide Passes, Pass, Ranked, SettledAfter, KeptAfter;
    if n == 0 {
      SettledFromZero(index, c, rank);
    } else {
      OnScheduleIff(index, c, rank, n - 1);
      if OnSchedule(index, c, rank, n - 1) {
        assert SettledAfter(index, c, rank, n - 1, n - 1);
        NextRankIff(index, c, rank, n - 1, n - 1);
      }
    }
  }

  lemma NextRankIff(index: TypeIndex, c: Component, rank: seq<nat>, passes: nat, k: nat)
    requires Ranked(index, c, rank) && SettledAfter(index, c, rank, passes, k)
    ensures SettledAfter(index, c, rank, passes + 1, k + 1) <==> KeptAfter(index, c, rank, passes, k)
    ensures SettledAfter(index, c, rank, passes + 1, k) && KeptAfter(index, c, rank, passes + 1, k)
  {
    PassesRanked(index, c, rank, passes);
    PassesStep(index, c, passes + 1);
    RankSettlesIff(index, Passes(index, c, passes), rank, k);
    SettledStays(index, Passes(index, c, passes), rank, k);
  }

  /** Two passes a rank are always enough. */
  lemma {:induction false} SettledInTwice(index: TypeIndex, c: Component, rank: seq<nat>, k: nat)
    requires Ranked(index, c, rank)
    ensures SettledAfter(index, c, rank, 2 * k, k)
  {
    hide Passes, Pass, Ranked, SettledAfter, KeptAfter;
    if k == 0 {
      SettledFromZero(index, c, rank);
    } else {
      SettledInTwice(index, c, rank, k - 1);
      NextRankIff(index, c, rank, 2 * k - 2, k - 1);
      NextRankIff(index, c, rank, 2 * k - 1, k - 1);
    }
  }

  /** Any ranking can be pressed into 0, ..., |members| - 1: count the ranks below. */
  function Pressed(rank: seq<nat>): (r: seq<nat>)
    ensures |r| == |rank|
  {
    seq(|rank|, i requires 0 <= i < |rank| => |RanksBelow(rank, rank[i])|)
  }

  function RanksBelow(rank: seq<nat>, k: nat): set<nat> {
    set j | 0 <= j < |rank| && rank[j] < k :: rank[j]
  }

  function RankSet(rank: seq<nat>): set<nat> {
    set r | r in rank
  }

  lemma {:induction false} FewRanks(rank: seq<nat>)
    ensures |RankSet(rank)| <= |rank|
  {
    if rank != [] {
      var init, last := rank[..|rank| - 1], rank[|rank| - 1];
      FewRanks(init);
      assert rank == init + [last];
      assert RankSet(rank) == RankSet(init) + {last};
    }
  }

  lemma SubsetSize(a: set<nat>, b: set<nat>)
    requires a < b
    ensures |a| < |b|
  {
    var x :| x in b && x !in a;
    SubsetCard(a, b - {x});
  }

  lemma {:induction false} SubsetCard(a: set<nat>, b: set<nat>)
    requires a <= b
    ensures |a| <= |b|
  {
    if a != {} {
      var x :| x in a;
      SubsetCard(a - {x}, b - {x});
    }
  }

  lemma PressedRanks(index: TypeIndex, c: Component, rank: seq<nat>)
    requires Ranked(index, c, rank)
    ensures Ranked(index, c, Pressed(rank)) && forall i :: 0 <= i < |rank| ==> Pressed(rank)[i] < |rank|
  {
    var all := RankSet(rank);
    FewRanks(rank);
    forall i | 0 <= i < |rank| ensures Pressed(rank)[i] < |rank| {
      var below := RanksBelow(rank, rank[i]);
      forall r | r in below ensures r in all {}
      assert rank[i] in all && rank[i] !in below;
      SubsetSize(below, all);
    }
    forall i, j | 0 <= i < |rank| && 0 <= j < |rank| && c.members[j].name in Dependencies(index, c, c.members[i])
      ensures Pressed(rank)[j] < Pressed(rank)[i]
    {
      assert rank[j] in RanksBelow(rank, rank[i]) && rank[j] !in RanksBelow(rank, rank[j]);
      SubsetSize(RanksBelow(rank, rank[j]), RanksBelow(rank, rank[i]));
    }
  }

  /** Once all ranks are settled a pass changes nothing. */
  lemma SettledIsFixed(index: TypeIndex, c: Component, rank: seq<nat>, passes: nat)
    requires |rank| == |c.members| && forall i :: 0 <= i < |rank| ==> rank[i] < |rank|
    requires SettledAfter(index, c, rank, passes, |rank|)
    ensures Passes(index, c, passes + 1) == Passes(index, c, passes)
  {
    var d := Passes(index, c, passes);
    PassesStep(index, c, passes + 1);
    PassAlike(index, d);
    assert d.members == Pass(index, d).members;
  }

  /** Without dependency cycles, as many passes as there are members reach a fixed point, as long
      as no member loses its seed: one more pass would change no member. */
  lemma InferenceConverges(index: TypeIndex, c: Component, rank: seq<nat>)
    requires Ranked(index, c, rank) && SeedsKept(index, c, Pressed(rank), |c.members|)
    ensures Passes(index, c, |c.members| + 1) == Enrich(index, c)
  {
    var n, low := |c.members|, Pressed(rank);
    PressedRanks(index, c, rank);
    OnScheduleIff(index, c, low, n);
    assert SettledAfter(index, c, low, n, n);
    SettledIsFixed(index, c, low, n);
  }

  /** Without dependency cycles, twice as many passes reach a fixed point, whatever the seeds. */
  lemma TwiceConverges(index: TypeIndex, c: Component, rank: seq<nat>)
    requires Ranked(index, c, rank)
    ensures Passes(index, c, 2 * |c.members| + 1) == Passes(index, c, 2 * |c.members|)
  {
    var n, low := |c.members|, Pressed(rank);
    PressedRanks(index, c, rank);
    SettledInTwice(index, c, low, n);
    SettledIsFixed(index, c, low, 2 * n);
  }

  // ---- Seeds that are never lost.

  /** An initializer whose type is its own: a literal, an assertion or a store value. */
  predicate SelfTyped(e: TypeExpression) {
    || (e.Literal? && e.literalType != "")
    || (e.Fixed? && e.answer.found && e.answer.resolved.resolvedType != "")
  }

  /** Its initializer has a type of its own, or its indexed type says something, or it has neither. */
  predicate SeedHarmless(index: TypeIndex, m: Member) {
    || (m.sourceExpression != "" && SelfTyped(Parsed(index, m.sourceExpression)))
    || !WeakSeed(m.memberType)
    || (m.sourceExpression == "" && m.memberType == "")
  }

  ghost predicate SeedsHarmless(index: TypeIndex, c: Component) {
    forall i :: 0 <= i < |c.members| && Written(c, c.members[i]) ==> SeedHarmless(index, c.members[i])
  }

  lemma HarmlessIsKept(index: TypeIndex, c: Component, m: Member)
    requires Written(c, m) ==> SeedHarmless(index, m)
    ensures KeepsSeed(index, c, m)
  {
  }

  lemma StepKeepsHarmless(index: TypeIndex, c: Component, m: Member)
    requires m.kind.DataMember? && SeedHarmless(index, m)
    ensures SeedHarmless(index, Inferred(index, c, m)) && SeedHarmless(index, Flowed(index, c, m))
  {
    UpdatesKeepSkeleton(index, c, m);
    var flow := MergeAssignmentTypes(InitialType(index, c, m),
                                     WriteEvidence(index, c, Writes(c.assignments, m.name), TypeContext(m, c)).types);
    if flow != "" {
      FlowNotWeak(InitialType(index, c, m), WriteEvidence(index, c, Writes(c.assignments, m.name), TypeContext(m, c)).types);
    }
  }

  lemma PassKeepsHarmless(index: TypeIndex, c: Component)
    requires SeedsHarmless(index, c)
    ensures SeedsHarmless(index, Pass(index, c))
  {
    var n, d := |c.members|, Pass(index, c);
    PassAlike(index, c);
    forall i | 0 <= i < n && Written(d, d.members[i])
      ensures SeedHarmless(index, d.members[i])
    {
      assert SameSkeleton(c.members[i], d.members[i]) && Written(c, c.members[i]);
      PassAt(index, c, i);
      var first := Inferred(index, InferUpTo(index, c, i), c.members[i]);
      StepKeepsHarmless(index, InferUpTo(index, c, i), c.members[i]);
      UpdatesKeepSkeleton(index, InferUpTo(index, c, i), c.members[i]);
      StepKeepsHarmless(index, FlowUpTo(index, InferUpTo(index, c, n), i), first);
    }
  }

  lemma {:induction false} PassesKeepHarmless(index: TypeIndex, c: Component, n: nat)
    requires SeedsHarmless(index, c)
    ensures SeedsHarmless(index, Passes(index, c, n))
  {
    hide Pass, SeedsHarmless;
    if n > 0 {
      PassesKeepHarmless(index, c, n - 1);
      PassesStep(index, c, n);
      PassKeepsHarmless(index, Passes(index, c, n - 1));
    }
  }

  /** What can be read off the component before any pass: with harmless seeds the bound holds. */
  lemma HarmlessConverges(index: TypeIndex, c: Component, rank: seq<nat>)
    requires Ranked(index, c, rank) && SeedsHarmless(index, c)
    ensures Passes(index, c, |c.members| + 1) == Enrich(index, c)
  {
    var low := Pressed(rank);
    PressedRanks(index, c, rank);
    forall k | 0 <= k < |c.members|
      ensures KeptAfter(index, c, low, k, k)
    {
      var d := Passes(index, c, k);
      PassesKeepHarmless(index, c, k);
      forall i | 0 <= i < |low| && low[i] == k
        ensures KeepsSeed(index, d, d.members[i])
      {
        HarmlessIsKept(index, d, d.members[i]);
      }
    }
    InferenceConverges(index, c, rank);
  }
}
