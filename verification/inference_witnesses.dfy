/** The convergence bound is tight, and it fails for a written data member whose weak
    indexed seed has no initializer expression behind it. */
module InferenceWitnesses {
  import opened AdminModel
  import opened TextScan
  import opened TypeText
  import opened MemberInference
  import opened InferenceConvergence

  // ---- A seed that is lost.

  predicate PlainName(text: string) {
    text != "" && forall i :: 0 <= i < |text| ==> IdentifierPart(text[i])
  }

  lemma {:induction false} PlainNameScans(text: string)
    requires forall i :: 0 <= i < |text| ==> IdentifierPart(text[i])
    ensures FirstPiece(text, '|', NEUTRAL) == (text, None)
  {
    if text != "" {
      assert Turn(NEUTRAL, text, '|') == (NEUTRAL, 1, false);
      PlainNameScans(text[1..]);
      assert text == text[..1] + text[1..];
    }
  }

  lemma PlainNameSplits(text: string)
    requires PlainName(text)
    ensures Split(text, '|') == [text]
  {
    PlainNameScans(text);
    TrimmedFixed(text);
  }

  lemma EmptySplits()
    ensures Split("", '|') == [""]
  {
    assert FirstPiece("", '|', NEUTRAL) == ("", None);
  }

  lemma BranchesOfTwo(a: string, b: string)
    ensures AllBranches([a] + [b]) == Split(a, '|') + Split(b, '|')
  {
    AllBranchesConcat([a], [b]);
    AllBranchesOne(a);
    AllBranchesOne(b);
  }

  /** A written type and a nullish seed are kept side by side. */
  lemma SeededMerge(written: string, seed: string)
    requires PlainName(written) && PlainName(seed) && written != seed
    requires !WeakEntry(written) && seed !in PLACEHOLDERS
    ensures MergeAssignmentTypes(seed, [written]) == written + (" | " + seed)
  {
    PlainNameSplits(written);
    PlainNameSplits(seed);
    BranchesOfTwo(written, seed);
    DistinctPair(written, seed);
    var pair := [written, seed];
    assert [written] + [seed] == pair;
    assert pair[0] in pair;
    assert pair[..1] == [written] && [written][..0] == [];
    assert Without([written], PLACEHOLDERS) == [] + [written] == [written];
    assert Without(pair, PLACEHOLDERS) == [written] + [seed] == pair;
    assert pair[1..] == [seed] && Join([seed]) == seed && pair[0] == written;
  }

  /** Without a seed the written type stands alone. */
  lemma UnseededMerge(written: string)
    requires PlainName(written) && !WeakEntry(written)
    ensures MergeAssignmentTypes("", [written]) == written
  {
    PlainNameSplits(written);
    EmptySplits();
    BranchesOfTwo(written, "");
    var pair := [written, ""];
    assert [written] + [""] == pair && pair[..1] == [written] && [written][..0] == [];
    assert Distinct([written]) == [] + [written] == [written];
    assert Distinct(pair) == [written];
    assert written in [written];
    assert Without([written], PLACEHOLDERS) == [] + [written] == [written];
  }

  /** One data member, seeded with null, written once: a single pass is allowed, and a second
      pass would still change it. */
  lemma NullSeedWitness(index: TypeIndex, c: Component)
    requires index == TypeIndex(map["load" := Literal("foo")], map[], {})
    requires c == Blank("c").(members := [Member("x", DataMember, "null", "", "", "", "", false)],
                              assignments := [Assignment("x", "load", "")])
    ensures Ranked(index, c, [0])
    ensures Enrich(index, c).members[0].memberType == "foo" + (" | " + "null")
    ensures Pass(index, Enrich(index, c)).members[0].memberType == "foo"
  {
    NoDependencies(index, c);
    FirstFlow(index, c, c.members[0]);
    var once := Member("x", DataMember, "foo" + (" | " + "null"), "", "", "", "", false);
    SecondFlow(index, c.(members := [once]), once);
  }

  lemma FirstFlow(index: TypeIndex, c: Component, m: Member)
    requires index == TypeIndex(map["load" := Literal("foo")], map[], {})
    requires c.members == [m] && c.assignments == [Assignment("x", "load", "")]
    requires m == Member("x", DataMember, "null", "", "", "", "", false) && c.definitionPath == "" && c.filePath == ""
    ensures Enrich(index, c) == c.(members := [m.(memberType := "foo" + (" | " + "null"))])
  {
    hide Writes, FirstPiece, Join;
    SeededMerge("foo", "null");
    PlainNameSplits("null");
    TrimmedFixed("null");
    FlowOfOne(index, c, m, c.assignments[0], "null");
    OneMemberPass(index, c, m, m.(memberType := "foo" + (" | " + "null")));
    OnePass(index, c);
  }

  lemma NoDependencies(index: TypeIndex, c: Component)
    requires |c.members| == 1 && c.members[0].sourceExpression == ""
    requires c.assignments == [Assignment("x", "load", "")] && Parsed(index, "load").Literal?
    ensures Ranked(index, c, [0])
  {
    var w := c.assignments[0];
    assert [w][..0] == [];
    assert WriteRoots(index, [w]) == {} && WriteRoots(index, []) == {};
    assert Writes([w], c.members[0].name) == [w] || Writes([w], c.members[0].name) == [] by {
      assert [] + [w] == [w];
    }
  }

  lemma OnePass(index: TypeIndex, c: Component)
    requires |c.members| == 1
    ensures Enrich(index, c) == Pass(index, c)
  {
    assert Passes(index, c, 0) == c;
  }

  lemma SecondFlow(index: TypeIndex, d: Component, once: Member)
    requires index == TypeIndex(map["load" := Literal("foo")], map[], {})
    requires d.members == [once] && d.assignments == [Assignment("x", "load", "")]
    requires once == Member("x", DataMember, "foo" + (" | " + "null"), "", "", "", "", false)
    requires d.definitionPath == "" && d.filePath == ""
    ensures Pass(index, d).members[0].memberType == "foo"
  {
    SeededMerge("foo", "null");
    FlowNotWeak("null", ["foo"]);
    UnseededMerge("foo");
    FlowOfOne(index, d, once, d.assignments[0], "");
    OneMemberPass(index, d, once, once.(memberType := "foo"));
  }

  lemma FlowOfOne(index: TypeIndex, c: Component, m: Member, write: Assignment, initial: string)
    requires m.kind.DataMember? && m.name == "x" && m.sourceExpression == "" && c.assignments == [write]
    requires write == Assignment("x", "load", "") && index == TypeIndex(map["load" := Literal("foo")], map[], {})
    requires m.typeContextPath == "" && m.filePath == "" && c.definitionPath == "" && c.filePath == ""
    requires initial == if WeakSeed(m.memberType) then m.memberType else ""
    requires MergeAssignmentTypes(initial, ["foo"]) != "" && WeakSeed("")
    ensures Flowed(index, c, m) == m.(memberType := MergeAssignmentTypes(initial, ["foo"]))
  {
    hide WeakSeed;
    assert [write][..0] == [];
    assert Writes([write], "x") == [] + [write] == [write];
    assert TypeContext(m, c) == "" by {
      assert ["", "", "", ""][1..] == ["", "", ""] && ["", "", ""][1..] == ["", ""] && ["", ""][1..] == [""];
      assert [""][1..] == [];
    }
    assert WriteEvidence(index, c, [write], "") == Evidence([] + ["foo"], "", false);
    assert [] + ["foo"] == ["foo"];
  }

  lemma OneMemberPass(index: TypeIndex, c: Component, m: Member, after: Member)
    requires c.members == [m] && m.sourceExpression == "" && Flowed(index, c, m) == after
    ensures Pass(index, c) == c.(members := [after])
  {
    assert InferUpTo(index, c, 0) == c;
    assert c.members[0 := m] == c.members;
    assert InferUpTo(index, c, 1) == c;
    assert FlowUpTo(index, c, 0) == c;
    assert c.members[0 := after] == [after];
  }

  // ---- The bound is tight.

  function NameOf(i: nat): string {
    seq(i + 1, _ => 'x')
  }

  /** n members in reverse order of forwarding: each returns the next, the last is a literal. */
  predicate ForwardingChain(index: TypeIndex, c: Component, n: nat) {
    && |c.members| == n && c.props == [] && c.assignments == [] && c.definitionPath == "p"
    && ChainQuery("T", "p", "") in index.chains && index.chains[ChainQuery("T", "p", "")]
       == Answer(Resolved("T", "p", false), true)
    && forall i :: 0 <= i < n ==> ChainMember(c.members[i], i) && ChainLink(index, n, i)
  }

  predicate ChainMember(m: Member, i: nat) {
    m == Member(NameOf(i), ComputedMember, m.memberType, "", "", NameOf(i), m.typeContextPath, false)
  }

  predicate ChainLink(index: TypeIndex, n: nat, i: nat) {
    Parsed(index, NameOf(i)) == if i + 1 == n then Literal("T") else Chain(NameOf(i + 1), "")
  }

  /** The last k members of the chain are typed, the others are not. */
  predicate TypedFrom(c: Component, n: nat, k: nat) {
    k <= n == |c.members| && forall i :: 0 <= i < n ==>
      && c.members[i].memberType == (if i + k >= n then "T" else "")
      && c.members[i].typeContextPath == (if i + k >= n then "p" else "")
  }

  lemma {:induction false} FirstNamedInChain(members: seq<Member>, from: nat, i: nat)
    requires i < |members| && forall j :: 0 <= j < |members| ==> members[j].name == NameOf(from + j)
    ensures FirstNamed(members, NameOf(from + i)) == i
    ensures !NamedLater(members, i, NameOf(from + i))
  {
    forall j | 0 <= j < |members| && j != i ensures members[j].name != NameOf(from + i) {
      assert |NameOf(from + j)| != |NameOf(from + i)|;
    }
    if i > 0 {
      assert forall j :: 0 <= j < |members[1..]| ==> members[1..][j].name == NameOf(from + 1 + j);
      FirstNamedInChain(members[1..], from + 1, i - 1);
    }
  }

  lemma ChainContext(c: Component, m: Member)
    requires c.definitionPath == "p" && m.filePath == "" && (m.typeContextPath == "" || m.typeContextPath == "p")
    ensures TypeContext(m, c) == "p"
  {
    var all := [m.typeContextPath, m.filePath, c.definitionPath, c.filePath];
    var two := all[1..][1..];
    assert two[0] == "p" && FirstNonEmpty(two) == "p";
    assert all[1..][0] == "" && FirstNonEmpty(all[1..]) == "p";
  }

  /** One member's step: it learns its type exactly when the next member has one. */
  lemma ChainStep(index: TypeIndex, c: Component, n: nat, i: nat)
    requires ForwardingChain(index, c, n) && i < n
    requires c.members[i].memberType == c.members[i].typeContextPath == ""
    requires i < n - 1 ==> (c.members[i + 1].memberType == "T" && c.members[i + 1].typeContextPath == "p")
                           || c.members[i + 1].memberType == ""
    ensures var known := i == n - 1 || c.members[i + 1].memberType == "T";
            Inferred(index, c, c.members[i])
            == if known then c.members[i].(memberType := "T", typeContextPath := "p") else c.members[i]
  {
    ChainContext(c, c.members[i]);
    assert ChainMember(c.members[i], i) && ChainLink(index, n, i);
    if i < n - 1 {
      assert ChainMember(c.members[i + 1], i + 1);
      assert forall j :: 0 <= j < n ==> ChainMember(c.members[j], j) && c.members[j].name == NameOf(0 + j);
      FirstNamedInChain(c.members, 0, i + 1);
      var next := c.members[i + 1];
      assert RootMember(c, NameOf(i + 1)) == Some(next);
      var e := Parsed(index, NameOf(i));
      assert e == Chain(NameOf(i + 1), "");
      if next.memberType == "T" {
        ChainContext(c, next);
        assert Resolve(index, c, e, "p") == Answer(Resolved("T", "p", false), true);
      } else {
        assert Resolve(index, c, e, "p") == NO_ANSWER;
      }
    } else {
      var e := Parsed(index, NameOf(i));
      assert Resolve(index, c, e, "p") == Answer(Resolved("T", "p", false), true);
    }
    assert c.members[i].sourceExpression == NameOf(i) && NeedsInferredType(c.members[i]);
  }

  lemma TypedStays(index: TypeIndex, c: Component, m: Member)
    requires m.memberType == "T" && !m.kind.MethodMember?
    ensures Inferred(index, c, m) == m
  {
    PlainNameSplits("T");
    TrimmedFixed("T");
    assert "T" in ["T"] && !WeakEntry("T");
  }

  /** Reaching member i of a chain whose last k members are typed. */
  lemma ChainInferAt(index: TypeIndex, c: Component, n: nat, k: nat, i: nat)
    requires ForwardingChain(index, c, n) && TypedFrom(c, n, k) && i < n
    ensures ForwardingChain(index, InferAt(index, c, i), n)
    ensures TypedFrom(InferAt(index, c, i), n, if i + k + 1 == n then k + 1 else k)
  {
    if i + k >= n {
      TypedStays(index, c, c.members[i]);
      assert c.members[i := c.members[i]] == c.members;
    } else {
      ChainStep(index, c, n, i);
      if i + k + 1 < n {
        assert c.members[i := c.members[i]] == c.members;
      }
    }
  }

  lemma {:induction false} ChainInfers(index: TypeIndex, c: Component, n: nat, k: nat, m: nat)
    requires ForwardingChain(index, c, n) && TypedFrom(c, n, k) && k < n && m <= n
    ensures ForwardingChain(index, InferUpTo(index, c, m), n)
    ensures TypedFrom(InferUpTo(index, c, m), n, if m + k >= n then k + 1 else k)
  {
    if m > 0 {
      ChainInfers(index, c, n, k, m - 1);
      ChainInferAt(index, InferUpTo(index, c, m - 1), n, if m - 1 + k >= n then k + 1 else k, m - 1);
    }
  }

  lemma {:induction false} ChainFlows(index: TypeIndex, c: Component, m: nat)
    requires c.assignments == [] && m <= |c.members|
    ensures FlowUpTo(index, c, m) == c
  {
    hide WithFlow;
    if m > 0 {
      ChainFlows(index, c, m - 1);
      assert Writes([], c.members[m - 1].name) == [];
      assert c.members[m - 1 := c.members[m - 1]] == c.members;
    }
  }

  lemma {:induction false} ChainPasses(index: TypeIndex, c: Component, n: nat, k: nat)
    requires ForwardingChain(index, c, n) && TypedFrom(c, n, 0) && k <= n
    ensures ForwardingChain(index, Passes(index, c, k), n) && TypedFrom(Passes(index, c, k), n, k)
  {
    if k > 0 {
      ChainPasses(index, c, n, k - 1);
      var d := Passes(index, c, k - 1);
      ChainInfers(index, d, n, k - 1, n);
      ChainFlows(index, InferUpTo(index, d, n), n);
    }
  }

  /** A forwarding chain in reverse order gains one type per pass: after k < n passes one more
      pass still changes a member, and after n passes all are typed. */
  lemma BoundIsTight(index: TypeIndex, c: Component, n: nat, k: nat)
    requires ForwardingChain(index, c, n) && TypedFrom(c, n, 0) && k < n
    ensures Pass(index, Passes(index, c, k)) != Passes(index, c, k)
    ensures forall i :: 0 <= i < n ==> Enrich(index, c).members[i].memberType == "T"
  {
    hide Pass;
    ChainPasses(index, c, n, k);
    ChainPasses(index, c, n, k + 1);
    ChainPasses(index, c, n, n);
    var i := n - 1 - k;
    assert Passes(index, c, k).members[i].memberType == "";
    assert Passes(index, c, k + 1).members[i].memberType == "T";
  }

  function NamesUpTo(n: nat): set<string> {
    set i | 0 <= i < n :: NameOf(i)
  }

  /** Such chains exist at every length. */
  lemma ChainsExist(n: nat) returns (index: TypeIndex, c: Component)
    ensures ForwardingChain(index, c, n) && TypedFrom(c, n, 0)
  {
    index := TypeIndex(map s | s in NamesUpTo(n) :: if |s| == n then Literal("T") else Chain(NameOf(|s|), ""),
                       map[ChainQuery("T", "p", "") := Answer(Resolved("T", "p", false), true)], {});
    c := Blank("c").(definitionPath := "p", members := seq(n, i requires 0 <= i < n =>
           Member(NameOf(i), ComputedMember, "", "", "", NameOf(i), "", false)));
    forall i | 0 <= i < n ensures ChainMember(c.members[i], i) && ChainLink(index, n, i) {
      assert NameOf(i) in NamesUpTo(n);
    }
  }
}
