/** The candidates of an inline selector and their source ranges:
    internal/admin/dynamic_component.go:130-239. Offsets are unbounded integers. */
module StaticSelector {
  import opened AdminModel
  import opened CallableType
  import opened TextScan
  import opened StaticChain
  import opened SelectorText
  import opened SelectorResolver

  datatype Candidate = Candidate(name: string, start: int, end: int)

  datatype Scan = Scan(candidates: seq<Candidate>, complete: bool)

  /** trimDynamicComponentExpression: the base moves over blanks, tabs and line ends only, but
      the text loses all leading white space. */
  function TrimExpression(value: string, base: int): (string, int) {
    (Trim(value), base + |value| - |SkipSpace(value)|)
  }

  function StripBase(t: string, base: int): (r: (string, int))
    ensures |r.0| <= |t|
    decreases |t|
  {
    if Parenthesised(t) then
      var (inner, moved) := TrimExpression(t[1..|t| - 1], base + 1);
      TrimShrinks(t[1..|t| - 1]);
      StripBase(inner, moved)
    else (t, base)
  }

  /** The branches of a text that splits as a conditional. */
  function TrueStart(u: string): nat
    requires SplitConditional(u).Some?
  {
    SplitConditional(u).value.question + 1
  }

  function TrueText(u: string): (t: string)
    requires SplitConditional(u).Some?
    ensures |t| < |u|
  {
    u[SplitConditional(u).value.question + 1..SplitConditional(u).value.colon]
  }

  function FalseStart(u: string): nat
    requires SplitConditional(u).Some?
  {
    SplitConditional(u).value.colon + 1
  }

  function FalseText(u: string): (f: string)
    requires SplitConditional(u).Some?
    ensures |f| < |u|
  {
    u[SplitConditional(u).value.colon + 1..]
  }

  predicate Branches(u: string) {
    StaticString(u).None? && SplitConditional(u).Some?
  }

  lemma BranchesLocated(u: string)
    requires Branches(u)
    ensures LocatedAt(u, TrueStart(u), TrueText(u)) && LocatedAt(u, FalseStart(u), FalseText(u))
    ensures TrueStart(u) + |TrueText(u)| < FalseStart(u)
  {
  }

  function Both(whenTrue: Scan, whenFalse: Scan): Scan {
    Scan(whenTrue.candidates + whenFalse.candidates, whenTrue.complete && whenFalse.complete)
  }

  // ---- Where the parts really are.

  /** The text without white space and parentheses, its true offset, and by how much the
      scan's own offset falls behind it. */
  datatype Peeled = Peeled(text: string, offset: nat, lost: nat)

  lemma {:induction false} SkipsFewer(s: string)
    ensures |TrimLeft(s)| <= |SkipSpace(s)| <= |s|
  {
    if s != "" && JsSpace(s[0]) {
      SkipsFewer(s[1..]);
    } else {
      TrimLeftSuffix(s);
    }
  }

  function Peel(e: string): (r: Peeled)
    ensures |r.text| <= |e|
    decreases |e|
  {
    var t := Trim(e);
    TrimShrinks(e);
    SkipsFewer(e);
    TrimLeftSuffix(e);
    var lost := |SkipSpace(e)| - |TrimLeft(e)|;
    var left := |e| - |TrimLeft(e)|;
    if Parenthesised(t) then
      var inner := Peel(t[1..|t| - 1]);
      Peeled(inner.text, left + 1 + inner.offset, lost + inner.lost)
    else Peeled(t, left, lost)
  }

  lemma {:induction false} StripIsPeel(e: string, base: int)
    ensures var (t, moved) := TrimExpression(e, base);
            StripBase(t, moved) == (Peel(e).text, base + Peel(e).offset - Peel(e).lost)
    decreases |e|
  {
    var (t, moved) := TrimExpression(e, base);
    TrimShrinks(e);
    if Parenthesised(t) {
      StripIsPeel(t[1..|t| - 1], moved + 1);
    }
  }

  lemma EmptyPeels(e: string)
    requires Trim(e) == ""
    ensures Peel(e).text == ""
  {
  }

  /** The conditional structure of a selector: where each part lies in the one around it, and
      how much each level's offset falls behind. */
  datatype Shape = Shape(offset: nat, lost: nat, form: Form)

  datatype Form =
    | NameForm(name: string, length: nat)
    | OpenForm
    | ForkForm(trueStart: nat, whenTrue: Shape, falseStart: nat, whenFalse: Shape)

  function ShapeOf(e: string): Shape
    decreases |e|, 1
  {
    Shape(Peel(e).offset, Peel(e).lost, FormOf(Peel(e).text))
  }

  function FormOf(u: string): Form
    decreases |u|, 0
  {
    if StaticString(u).Some? then NameForm(StaticString(u).value, |u|)
    else if SplitConditional(u).None? then OpenForm
    else ForkForm(TrueStart(u), ShapeOf(TrueText(u)), FalseStart(u), ShapeOf(FalseText(u)))
  }

  /** What the scan collects from a shape. */
  function ScanShape(s: Shape, base: int): Scan {
    ScanForm(s.form, base + s.offset - s.lost)
  }

  function ScanForm(form: Form, at: int): Scan {
    match form
    case NameForm(name, length) => Scan([Candidate(name, at + 1, at + length - 1)], true)
    case OpenForm => Scan([], false)
    case ForkForm(q, t, k, f) => Both(ScanShape(t, at + q), ScanShape(f, at + k))
  }

  /** The candidates of a shape with their true ranges. */
  function ExactShape(s: Shape, base: int): seq<Candidate> {
    ExactForm(s.form, base + s.offset)
  }

  function ExactForm(form: Form, at: int): seq<Candidate> {
    match form
    case NameForm(name, length) => [Candidate(name, at + 1, at + length - 1)]
    case OpenForm => []
    case ForkForm(q, t, k, f) => ExactShape(t, at + q) + ExactShape(f, at + k)
  }

  /** The candidates of a selector with their true ranges. */
  function Exact(e: string, base: int): seq<Candidate> {
    ExactShape(ShapeOf(e), base)
  }

  /** What staticVueDynamicComponentCandidates answers. */
  function Candidates(e: string, base: int): Scan {
    ScanShape(ShapeOf(e), base)
  }

  /** staticVueDynamicComponentCandidates: trims, unwraps in a loop that moves expression and
      base, and scans the branches of a conditional. */
  method StaticCandidates(value: string, offset: int) returns (candidates: seq<Candidate>, complete: bool)
    ensures Scan(candidates, complete) == Candidates(value, offset)
    decreases |value|, 1
  {
    TrimShrinks(value);
    var (expression, base) := TrimExpression(value, offset);
    if expression == "" {
      EmptyScan(value, offset);
      return [], false;
    }
    StripIsPeel(value, offset);
    ScanShapeOf(value, offset);
    expression, base := StripParenthesesOf(expression, base);
    candidates, complete := CandidatesIn(expression, base);
  }

  method StripParenthesesOf(value: string, offset: int) returns (expression: string, base: int)
    ensures (expression, base) == StripBase(value, offset) && |expression| <= |value|
  {
    expression, base := value, offset;
    while |expression| >= 2 && expression[0] == '(' && MatchingDelimiter(expression, 0, '(', ')') == |expression| - 1
      invariant StripBase(expression, base) == StripBase(value, offset) && |expression| <= |value|
      decreases |expression|
    {
      TrimShrinks(expression[1..|expression| - 1]);
      var (inner, moved) := TrimExpression(expression[1..|expression| - 1], base + 1);
      expression, base := inner, moved;
    }
  }

  lemma EmptyScan(e: string, base: int)
    requires Trim(e) == ""
    ensures Candidates(e, base) == Scan([], false)
  {
    EmptyPeels(e);
    ScanShapeOf(e, base);
  }

  method CandidatesIn(expression: string, base: int) returns (candidates: seq<Candidate>, complete: bool)
    ensures Scan(candidates, complete) == ScanForm(FormOf(expression), base)
    decreases |expression|, 0
  {
    var name, start, end, literal := StaticDynamicComponentString(expression);
    if literal {
      return [Candidate(name, base + start, base + end)], true;
    }
    var trueStart, trueEnd, falseStart, falseEnd, conditional := SplitDynamicComponentConditional(expression);
    if !conditional {
      return [], false;
    }
    assert expression[falseStart..falseEnd] == expression[falseStart..];
    var whenTrue, trueComplete := StaticCandidates(expression[trueStart..trueEnd], base + trueStart);
    var whenFalse, falseComplete := StaticCandidates(expression[falseStart..falseEnd], base + falseStart);
    return whenTrue + whenFalse, trueComplete && falseComplete;
  }

  lemma ScanShapeOf(e: string, base: int)
    ensures ScanShape(ShapeOf(e), base) == ScanForm(FormOf(Peel(e).text), base + Peel(e).offset - Peel(e).lost)
  {
    hide FormOf, Peel, ScanForm;
  }

  // ---- Range fidelity.

  /** Every range of the list holds its name in the text that starts at `base`. */
  predicate Faithful(s: string, base: int, candidates: seq<Candidate>) {
    forall i :: 0 <= i < |candidates| ==> Shows(s, base, candidates[i])
  }

  predicate Shows(s: string, base: int, c: Candidate) {
    base <= c.start <= c.end <= base + |s| && s[c.start - base..c.end - base] == c.name
  }

  predicate Ordered(candidates: seq<Candidate>) {
    forall i, j :: 0 <= i < j < |candidates| ==> candidates[i].end < candidates[j].start
  }

  lemma SliceOfSlice(s: string, i: nat, j: nat, k: nat, l: nat)
    requires i <= j <= |s| && k <= l <= j - i
    ensures s[i..j][k..l] == s[i + k..i + l]
  {
    forall x | 0 <= x < l - k ensures s[i..j][k..l][x] == s[i + k..i + l][x] {
      assert s[i..j][k + x] == s[i + k + x];
    }
  }

  lemma ShowsWithin(s: string, base: int, offset: nat, part: string, c: Candidate)
    requires offset + |part| <= |s| && s[offset..offset + |part|] == part && Shows(part, base + offset, c)
    ensures Shows(s, base, c)
  {
    SliceOfSlice(s, offset, offset + |part|, c.start - base - offset, c.end - base - offset);
  }

  predicate LocatedAt(s: string, offset: nat, part: string) {
    offset + |part| <= |s| && s[offset..offset + |part|] == part
  }

  lemma LocatedWithin(s: string, offset: nat, part: string, inner: nat, core: string)
    requires LocatedAt(s, offset, part) && LocatedAt(part, inner, core)
    ensures LocatedAt(s, offset + inner, core)
  {
    SliceOfSlice(s, offset, offset + |part|, inner, inner + |core|);
  }

  lemma TrimLocated(e: string)
    ensures |TrimLeft(e)| <= |e| && LocatedAt(e, |e| - |TrimLeft(e)|, Trim(e))
  {
    TrimLeftSuffix(e);
    TrimRightPrefix(TrimLeft(e));
    SliceOfSlice(e, |e| - |TrimLeft(e)|, |e|, 0, |Trim(e)|);
  }

  lemma {:induction false} PeelLocated(e: string)
    ensures LocatedAt(e, Peel(e).offset, Peel(e).text)
    decreases |e|
  {
    var t := Trim(e);
    TrimShrinks(e);
    TrimLocated(e);
    if Parenthesised(t) {
      var inner := t[1..|t| - 1];
      PeelLocated(inner);
      LocatedWithin(t, 1, inner, Peel(inner).offset, Peel(inner).text);
      LocatedWithin(e, |e| - |TrimLeft(e)|, t, 1 + Peel(inner).offset, Peel(inner).text);
    }
  }

  lemma FaithfulWithin(s: string, base: int, offset: nat, part: string, candidates: seq<Candidate>)
    requires LocatedAt(s, offset, part) && Faithful(part, base + offset, candidates)
    ensures Faithful(s, base, candidates)
  {
    forall i | 0 <= i < |candidates| ensures Shows(s, base, candidates[i]) {
      ShowsWithin(s, base, offset, part, candidates[i]);
    }
  }

  /** The true ranges are in bounds, hold their names, and are increasing and disjoint. */
  lemma {:induction false} ExactIsFaithful(e: string, base: int)
    ensures Faithful(e, base, Exact(e, base)) && Ordered(Exact(e, base))
    decreases |e|, 1
  {
    PeelLocated(e);
    FormIsFaithful(Peel(e).text, base + Peel(e).offset);
    FaithfulWithin(e, base, Peel(e).offset, Peel(e).text, Exact(e, base));
  }

  lemma {:induction false} FormIsFaithful(u: string, at: int)
    ensures Faithful(u, at, ExactForm(FormOf(u), at)) && Ordered(ExactForm(FormOf(u), at))
    decreases |u|, 0
  {
    if Branches(u) {
      var q, t, k, f := TrueStart(u), TrueText(u), FalseStart(u), FalseText(u);
      ExactIsFaithful(t, at + q);
      ExactIsFaithful(f, at + k);
      BranchesLocated(u);
      BranchesFaithful(u, at, q, t, Exact(t, at + q), k, f, Exact(f, at + k));
    }
  }

  lemma BranchesFaithful(u: string, at: int, i: nat, t: string, ts: seq<Candidate>, j: nat, f: string, fs: seq<Candidate>)
    requires LocatedAt(u, i, t) && LocatedAt(u, j, f) && i + |t| < j
    requires Faithful(t, at + i, ts) && Ordered(ts) && Faithful(f, at + j, fs) && Ordered(fs)
    ensures Faithful(u, at, ts + fs) && Ordered(ts + fs)
  {
    FaithfulWithin(u, at, i, t, ts);
    FaithfulWithin(u, at, j, f, fs);
    forall k, l | 0 <= k < |ts| && 0 <= l < |fs| ensures ts[k].end < fs[l].start {
      assert Shows(t, at + i, ts[k]) && Shows(f, at + j, fs[l]);
    }
  }

  // ---- When the scan's ranges are the true ones.

  /** The scanned list has the same names and lengths as the true one, and never starts later. */
  predicate Behind(scanned: seq<Candidate>, exact: seq<Candidate>) {
    && |scanned| == |exact|
    && forall i :: 0 <= i < |scanned| ==> BehindAt(scanned[i], exact[i])
  }

  predicate BehindAt(c: Candidate, x: Candidate) {
    c.name == x.name && c.start <= x.start && c.end - c.start == x.end - x.start
  }

  /** Every trim that leads to a candidate removes only blanks, tabs and line ends on the left. */
  predicate Clean(e: string) {
    CleanShape(ShapeOf(e))
  }

  predicate CleanShape(s: Shape) {
    ExactShape(s, 0) == [] || (s.lost == 0 && CleanForm(s.form))
  }

  predicate CleanForm(form: Form) {
    form.ForkForm? ==> CleanShape(form.whenTrue) && CleanShape(form.whenFalse)
  }

  lemma {:induction false} ExactCount(s: Shape, base: int)
    ensures |ExactShape(s, base)| == |ExactShape(s, 0)|
  {
    ExactFormCount(s.form, base + s.offset);
    ExactFormCount(s.form, s.offset);
  }

  lemma {:induction false} ExactFormCount(form: Form, at: int)
    ensures |ExactForm(form, at)| == |ExactForm(form, 0)|
  {
    if form.ForkForm? {
      ExactCount(form.whenTrue, at + form.trueStart);
      ExactCount(form.whenTrue, form.trueStart);
      ExactCount(form.whenFalse, at + form.falseStart);
      ExactCount(form.whenFalse, form.falseStart);
    }
  }

  /** Two joined lists agree exactly when their halves do, if the first halves are as long. */
  lemma JoinsAgree(a: seq<Candidate>, b: seq<Candidate>, x: seq<Candidate>, y: seq<Candidate>)
    requires |a| == |x|
    ensures a + b == x + y <==> a == x && b == y
  {
    if a + b == x + y {
      assert a == (a + b)[..|a|] && x == (x + y)[..|x|];
      assert b == (a + b)[|a|..] && y == (x + y)[|x|..];
    }
  }

  lemma {:induction false} ScanIsBehind(s: Shape, base: int, exactBase: int)
    requires base <= exactBase
    ensures Behind(ScanShape(s, base).candidates, ExactShape(s, exactBase))
    ensures ScanShape(s, base).candidates == ExactShape(s, exactBase)
        <==> ExactShape(s, exactBase) == [] || (base == exactBase && CleanShape(s))
  {
    FormIsBehind(s.form, base + s.offset - s.lost, exactBase + s.offset);
    ExactCount(s, exactBase);
  }

  lemma {:induction false} FormIsBehind(form: Form, at: int, exactBase: int)
    requires at <= exactBase
    ensures Behind(ScanForm(form, at).candidates, ExactForm(form, exactBase))
    ensures ScanForm(form, at).candidates == ExactForm(form, exactBase)
        <==> ExactForm(form, exactBase) == [] || (at == exactBase && CleanForm(form))
  {
    if form.ForkForm? {
      var ForkForm(q, t, k, f) := form;
      ScanIsBehind(t, at + q, exactBase + q);
      ScanIsBehind(f, at + k, exactBase + k);
      ExactCount(t, exactBase + q);
      ExactCount(f, exactBase + k);
      BehindJoins(ScanShape(t, at + q).candidates, ScanShape(f, at + k).candidates,
                  ExactShape(t, exactBase + q), ExactShape(f, exactBase + k));
    }
  }

  lemma BehindJoins(a: seq<Candidate>, b: seq<Candidate>, x: seq<Candidate>, y: seq<Candidate>)
    requires Behind(a, x) && Behind(b, y)
    ensures Behind(a + b, x + y)
    ensures a + b == x + y <==> a == x && b == y
    ensures x + y == [] <==> x == [] && y == []
  {
    JoinsAgree(a, b, x, y);
  }

  /** The scan's ranges are the true ranges exactly when all its trims are clean. */
  lemma RangesExactIff(e: string, base: int)
    ensures Candidates(e, base).candidates == Exact(e, base) <==> Clean(e)
  {
    ScanIsBehind(ShapeOf(e), base, base);
    ExactCount(ShapeOf(e), base);
  }

  /** White space is blanks, tabs and line ends only. */
  predicate CommonSpace(s: string) {
    forall i :: 0 <= i < |s| && IsSpace(s[i]) ==> JsSpace(s[i])
  }

  lemma {:induction false} CommonSkips(s: string)
    requires CommonSpace(s)
    ensures SkipSpace(s) == TrimLeft(s)
  {
    if s != "" && IsSpace(s[0]) {
      CommonSkips(s[1..]);
    }
  }

  lemma CommonPart(s: string, i: nat, part: string)
    requires CommonSpace(s) && LocatedAt(s, i, part)
    ensures CommonSpace(part)
  {
    forall k | 0 <= k < |part| && IsSpace(part[k]) ensures JsSpace(part[k]) {
      assert part[k] == s[i..i + |part|][k] == s[i + k];
    }
  }

  lemma {:induction false} CommonPeel(e: string)
    requires CommonSpace(e)
    ensures Peel(e).lost == 0
    decreases |e|
  {
    var t := Trim(e);
    TrimShrinks(e);
    TrimLocated(e);
    CommonSkips(e);
    if Parenthesised(t) {
      CommonPart(e, |e| - |TrimLeft(e)|, t);
      CommonPart(t, 1, t[1..|t| - 1]);
      CommonPeel(t[1..|t| - 1]);
    }
  }

  lemma {:induction false} CommonIsClean(e: string)
    requires CommonSpace(e)
    ensures Clean(e)
    decreases |e|, 1
  {
    CommonPeel(e);
    PeelLocated(e);
    CommonPart(e, Peel(e).offset, Peel(e).text);
    CommonFormIsClean(Peel(e).text);
  }

  lemma {:induction false} CommonFormIsClean(u: string)
    requires CommonSpace(u)
    ensures CleanForm(FormOf(u))
    decreases |u|, 0
  {
    if Branches(u) {
      BranchesLocated(u);
      CommonPart(u, TrueStart(u), TrueText(u));
      CommonPart(u, FalseStart(u), FalseText(u));
      CommonIsClean(TrueText(u));
      CommonIsClean(FalseText(u));
    }
  }

  /** Range fidelity: with common white space every candidate's range holds its name, in bounds,
      increasing and disjoint, through trimming, parentheses and nested conditionals. */
  lemma CommonRangesFaithful(e: string, base: int)
    requires CommonSpace(e)
    ensures Faithful(e, base, Candidates(e, base).candidates) && Ordered(Candidates(e, base).candidates)
  {
    CommonIsClean(e);
    RangesExactIff(e, base);
    ExactIsFaithful(e, base);
  }

  /** A leading form feed is trimmed but not counted: the range is one character early. */
  lemma FormFeedWitness(e: string)
    requires e == "\U{0C}'a'"
    ensures Candidates(e, 0) == Scan([Candidate("a", 1, 2)], true)
    ensures e[1..2] == "'" && !Clean(e) && Exact(e, 0) == [Candidate("a", 2, 3)]
  {
    var t := "'a'";
    assert e[1..] == t && TrimLeft(e) == t && SkipSpace(e) == e;
    TrimmedFixed(t);
    assert t[1..2] == "a" && StaticString(t) == Some("a");
    assert Peel(e) == Peeled(t, 1, 1);
    assert ShapeOf(e) == Shape(1, 1, NameForm("a", 3));
  }

  // ---- The scan refines the general analysis.

  predicate EndsClosed(t: string) {
    t != "" && (IsQuote(t[|t| - 1]) || t[|t| - 1] == ')')
  }

  /** A complete selector ends in a quote or a closing parenthesis. */
  lemma {:induction false} FormEndsClosed(e: string)
    requires Complete(ShapeOf(e).form)
    ensures EndsClosed(Trim(e))
    decreases |e|
  {
    var t := Trim(e);
    assert !Parenthesised(t) ==> Peel(e).text == t && ShapeOf(e).form == FormOf(t);
    if !Parenthesised(t) && StaticString(t).None? {
      TrimShrinks(e);
      FormEndsClosed(FalseText(t));
      TrimEnds(e);
      SuffixTrims(t, FalseStart(t));
    }
  }

  lemma SuffixTrims(t: string, i: nat)
    requires i < |t| && !IsSpace(t[|t| - 1])
    ensures Trim(t[i..]) != "" && Trim(t[i..])[|Trim(t[i..])| - 1] == t[|t| - 1]
  {
    var f := t[i..];
    TrimLeftSuffix(f);
    var l := TrimLeft(f);
    TrimLeftSplits(f);
    if l != "" {
      assert l[|l| - 1] == f[|f| - 1];
    }
  }

  lemma {:induction false} UnwrapIsPeel(e: string)
    ensures Unwrap(e) == Peel(e).text
    decreases |e|
  {
    var t := Trim(e);
    TrimShrinks(e);
    if Parenthesised(t) {
      UnwrapIsPeel(t[1..|t| - 1]);
    }
  }

  lemma ClosedCore(e: string)
    requires EndsClosed(Trim(e))
    ensures Core(e) == Peel(e).text
  {
    TrimIdempotent(e);
    UnwrapTrims(e);
    UnwrapIsPeel(e);
  }

  lemma {:induction false} UniqueConcat(a: seq<string>, b: seq<string>)
    ensures AppendUnique(AppendUnique([], a), AppendUnique([], b)) == AppendUnique([], a + b)
  {
    if b == [] {
      assert a + b == a;
    } else {
      var init, x := b[..|b| - 1], b[|b| - 1];
      UniqueConcat(a, init);
      assert (a + b)[..|a + b| - 1] == a + init && (a + b)[|a + b| - 1] == x;
      AppendUniqueMember([], init, x);
      AppendUniqueMember(AppendUnique([], a), AppendUnique([], init), x);
      UniqueStep(AppendUnique([], a), AppendUnique([], init), x);
    }
  }

  lemma UniqueStep(seen: seq<string>, names: seq<string>, x: string)
    requires x in AppendUnique(seen, names) <==> x in seen || (x != "" && x in names)
    ensures AppendUnique(seen, if x == "" || x in names then names else names + [x])
         == if x == "" || x in AppendUnique(seen, names) then AppendUnique(seen, names) else AppendUnique(seen, names) + [x]
  {
    if x != "" && x !in names {
      assert (names + [x])[..|names|] == names;
    }
  }

  function NamesOf(candidates: seq<Candidate>): (r: seq<string>)
    ensures |r| == |candidates|
  {
    seq(|candidates|, i requires 0 <= i < |candidates| => candidates[i].name)
  }

  lemma NamesOfConcat(a: seq<Candidate>, b: seq<Candidate>)
    ensures NamesOf(a + b) == NamesOf(a) + NamesOf(b)
  {
  }

  /** What the general analysis answers for a complete shape. */
  function Answer(form: Form): Names {
    match form
    case NameForm(name, _) => Names([name], true, true)
    case OpenForm => NOTHING
    case ForkForm(_, t, _, f) => Merge(Answer(t.form), Answer(f.form))
  }

  predicate Complete(form: Form) {
    match form
    case NameForm(_, _) => true
    case OpenForm => false
    case ForkForm(_, t, _, f) => Complete(t.form) && Complete(f.form)
  }

  predicate Named(form: Form) {
    match form
    case NameForm(name, _) => name != ""
    case OpenForm => true
    case ForkForm(_, t, _, f) => Named(t.form) && Named(f.form)
  }

  lemma {:induction false} FormIsNamed(u: string)
    ensures Named(FormOf(u))
    decreases |u|
  {
    if Branches(u) {
      FormIsNamed(Peel(TrueText(u)).text);
      FormIsNamed(Peel(FalseText(u)).text);
    }
  }

  /** An answer that lists the candidates of a scan, once each. */
  ghost predicate Lists(answer: Names, candidates: seq<Candidate>) {
    answer == Names(AppendUnique([], NamesOf(candidates)), true, true)
  }

  lemma MergeLists(left: Names, ts: seq<Candidate>, right: Names, fs: seq<Candidate>)
    requires Lists(left, ts) && Lists(right, fs)
    ensures Lists(Merge(left, right), ts + fs)
  {
    NamesOfConcat(ts, fs);
    UniqueConcat(NamesOf(ts), NamesOf(fs));
  }

  lemma OneListed(name: string, c: Candidate)
    requires name != "" && c.name == name
    ensures Lists(Names([name], true, true), [c])
  {
    var names: seq<string> := [name];
    assert NamesOf([c]) == names && names[..0] == [];
    assert AppendUnique([], names) == names;
  }

  lemma {:induction false} ScanCompletes(form: Form, at: int)
    requires Complete(form) && Named(form)
    ensures Lists(Answer(form), ScanForm(form, at).candidates)
  {
    match form
    case NameForm(name, length) => OneListed(name, Candidate(name, at + 1, at + length - 1));
    case ForkForm(q, t, k, f) =>
      ScanCompletes(t.form, at + q + t.offset - t.lost);
      ScanCompletes(f.form, at + k + f.offset - f.lost);
      ForkLists(form, at);
  }

  lemma ForkLists(form: Form, at: int)
    requires form.ForkForm?
    requires Lists(Answer(form.whenTrue.form), ScanShape(form.whenTrue, at + form.trueStart).candidates)
    requires Lists(Answer(form.whenFalse.form), ScanShape(form.whenFalse, at + form.falseStart).candidates)
    ensures Lists(Answer(form), ScanForm(form, at).candidates)
  {
    var ts, fs := ScanShape(form.whenTrue, at + form.trueStart).candidates, ScanShape(form.whenFalse, at + form.falseStart).candidates;
    MergeLists(Answer(form.whenTrue.form), ts, Answer(form.whenFalse.form), fs);
    assert ScanForm(form, at).candidates == ts + fs;
  }

  lemma {:induction false} CompleteForm(form: Form, at: int)
    ensures ScanForm(form, at).complete <==> Complete(form)
  {
    if form.ForkForm? {
      var ForkForm(q, t, k, f) := form;
      CompleteForm(t.form, at + q + t.offset - t.lost);
      CompleteForm(f.form, at + k + f.offset - f.lost);
    }
  }

  /** The analysis reads a complete selector as the scan does. */
  lemma {:induction false} AnalysisAnswers(c: SelectorComponent, e: string, resolving: set<string>)
    requires Complete(ShapeOf(e).form)
    ensures Resolve(c, e, resolving) == Answer(ShapeOf(e).form)
    decreases |e|, 1
  {
    FormEndsClosed(e);
    ClosedCore(e);
    CoreAnswers(c, Peel(e).text, resolving);
  }

  lemma {:induction false} CoreAnswers(c: SelectorComponent, u: string, resolving: set<string>)
    requires Complete(FormOf(u))
    ensures ResolveCore(c, u, resolving) == Answer(FormOf(u))
    decreases |u|, 0
  {
    if Branches(u) {
      AnalysisAnswers(c, TrueText(u), resolving);
      AnalysisAnswers(c, FalseText(u), resolving);
      BranchedCore(c, u, resolving);
    }
  }

  lemma BranchedCore(c: SelectorComponent, u: string, resolving: set<string>)
    requires Branches(u)
    ensures ResolveCore(c, u, resolving) == Merge(Resolve(c, TrueText(u), resolving), Resolve(c, FalseText(u), resolving))
  {
    SplitIsNoConstant(u);
  }

  /** Fast form refines the general one: whenever the inline scan is complete, the general
      analysis finds the same names, once each in source order, and is complete too. */
  lemma ScanRefinesAnalysis(c: SelectorComponent, e: string, base: int, resolving: set<string>)
    requires Candidates(e, base).complete
    ensures Resolve(c, e, resolving) == Names(AppendUnique([], NamesOf(Candidates(e, base).candidates)), true, true)
  {
    CompleteShape(ShapeOf(e), base);
    AnalysisAnswers(c, e, resolving);
    FormIsNamed(Peel(e).text);
    ShapeListed(ShapeOf(e), base);
  }

  lemma CompleteShape(s: Shape, base: int)
    requires ScanShape(s, base).complete
    ensures Complete(s.form)
  {
    CompleteForm(s.form, base + s.offset - s.lost);
  }

  lemma ShapeListed(s: Shape, base: int)
    requires Complete(s.form) && Named(s.form)
    ensures Lists(Answer(s.form), ScanShape(s, base).candidates)
  {
    ScanCompletes(s.form, base + s.offset - s.lost);
  }

  lemma {:induction false} SplitNeedsQuestion(value: string, i: nat, st: SlotScan, nested: nat)
    requires '?' !in value
    ensures SplitFrom(value, i, st, -1, nested).None?
    decreases |value| - i
  {
    if i < |value| {
      assert value[i] in value;
      SplitNeedsQuestion(value, i + 1, st.Consume(value[i]), nested);
    }
  }

  lemma SplitIsNoConstant(u: string)
    requires SplitConditional(u).Some?
    ensures !IsConstant(u) && u != ""
  {
    if IsConstant(u) || u == "" {
      SplitNeedsQuestion(u, 0, NEUTRAL_SLOT, 0);
    }
  }
}
