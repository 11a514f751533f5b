/** What the merged types of the inference mean: the branches they are left with, and the values
    they admit (internal/admin/component_type_inference.go:180-280, 294-405 and 1104-1144). */
module TypeValues {
  import opened AdminModel
  import opened TextScan
  import opened TypeText
  import opened MemberInference

  // ---- Trimming does not change a split.

  lemma {:induction false} SplitPadded(value: string, pad: string)
    requires AllSpace(pad)
    ensures Split(value + pad, '|') == Split(value, '|')
    decreases |value|
  {
    var (raw, tail) := FirstPiece(value, '|', NEUTRAL);
    FirstPieceConcat(value, pad, '|', NEUTRAL);
    if tail.Some? {
      SplitPadded(tail.value, pad);
    } else {
      SpaceNoCut(pad, ScanEnd(value, '|', NEUTRAL));
      TrimRightMore(value, pad);
    }
  }

  lemma {:induction false} SpaceNoCut(pad: string, st: TypeScan)
    requires AllSpace(pad)
    ensures FirstPiece(pad, '|', st) == (pad, None)
  {
    if pad != "" {
      var (next, taken, cut) := Turn(st, pad, '|');
      SpaceNoCut(pad[taken..], next);
      Rejoin(pad, taken);
    }
  }

  lemma SplitTrimmed(value: string)
    ensures Split(Trim(value), '|') == Split(value, '|')
  {
    var left, right := TrimSplits(value);
    var t := Trim(value);
    SplitPadded(t, right);
    FirstPieceSkipsSpace(left, t + right, NEUTRAL);
    TrimLeftMore(left, FirstPiece(t + right, '|', NEUTRAL).0);
    Reassociate(left, t, right);
  }

  // ---- What a branch says.

  /** `any` or `unknown`, a bare `Array` or `Object`, or an array of `any` or `unknown`. */
  predicate Placeholder(branch: string) {
    || branch == "any" || branch == "unknown" || branch == "Array" || branch == "Object"
    || exists list, entry | list in {"Array", "ReadonlyArray"} && entry in {"any", "unknown"} ::
         branch == list + "<" + entry + ">"
  }

  predicate NullBranch(branch: string) {
    branch == "null" || branch == "undefined"
  }

  predicate Says(branch: string) {
    branch != "" && !NullBranch(branch) && !Placeholder(branch)
  }

  lemma PlaceholdersAre(branch: string)
    ensures branch in PLACEHOLDERS <==> Placeholder(branch)
    ensures WeakEntry(branch) <==> !Says(branch)
  {
    assert "Array" + "<" + "any" + ">" == "Array<any>";
    assert "Array" + "<" + "unknown" + ">" == "Array<unknown>";
    assert "ReadonlyArray" + "<" + "any" + ">" == "ReadonlyArray<any>";
    assert "ReadonlyArray" + "<" + "unknown" + ">" == "ReadonlyArray<unknown>";
  }

  /** A seed is weak exactly if no branch of it says anything. */
  lemma WeakSeedIff(value: string)
    ensures WeakSeed(value) <==> forall b :: b in Split(value, '|') ==> !Says(b)
  {
    SplitTrimmed(value);
    forall b ensures WeakEntry(b) <==> !Says(b) {
      PlaceholdersAre(b);
    }
    if Trim(value) == "" {
      EmptySplit();
      assert Split(value, '|') == [""];
    }
  }

  lemma EmptySplit()
    ensures Split("", '|') == [""]
  {
  }

  // ---- The order of merged branches.

  predicate At(values: seq<string>, i: int, k: int, branch: string) {
    0 <= i < |values| && 0 <= k < |Split(values[i], '|')| && Split(values[i], '|')[k] == branch
  }

  /** Somewhere the first branch stands before every place of the second. */
  ghost predicate Sooner(values: seq<string>, first: string, second: string) {
    exists i, k :: At(values, i, k, first) && Unseen(values, i, k, second)
  }

  /** The branch stands nowhere up to that place. */
  ghost predicate Unseen(values: seq<string>, i: int, k: int, branch: string) {
    forall j, l :: At(values, j, l, branch) ==> j > i || (j == i && l > k)
  }

  ghost predicate InOrder(entries: seq<string>, d: seq<string>) {
    forall x, y :: 0 <= x < y < |d| ==> d[x] != d[y] && FirstBefore(entries, d[x], d[y])
  }

  lemma {:induction false} DistinctOrder(entries: seq<string>)
    ensures InOrder(entries, Distinct(entries))
  {
    if entries != [] {
      var init, e := entries[..|entries| - 1], entries[|entries| - 1];
      var before, d := Distinct(init), Distinct(entries);
      assert entries == init + [e];
      DistinctOrder(init);
      DistinctEntries(init);
      forall x, y | 0 <= x < y < |d| ensures d[x] != d[y] && FirstBefore(entries, d[x], d[y]) {
        assert d[x] in before;
        if y < |before| {
          assert d[x] == before[x] && d[y] == before[y];
          var p :| FoundAt(init, p, d[x], d[y]);
          assert entries[..p + 1] == init[..p + 1];
          assert FoundAt(entries, p, d[x], d[y]);
        } else {
          var p :| 0 <= p < |init| && init[p] == d[x];
          assert entries[..p + 1] == init[..p + 1];
          assert forall b :: b in init[..p + 1] ==> b in init;
          assert FoundAt(entries, p, d[x], d[y]);
        }
      }
    }
  }

  ghost predicate FirstBefore(entries: seq<string>, first: string, second: string) {
    exists p :: FoundAt(entries, p, first, second)
  }

  predicate FoundAt(entries: seq<string>, p: int, first: string, second: string) {
    0 <= p < |entries| && entries[p] == first && second !in entries[..p + 1]
  }

  /** Where a place of the concatenated splits stands in the values. */
  lemma {:induction false} PlaceOf(values: seq<string>, p: nat) returns (i: nat, k: nat)
    requires p < |AllBranches(values)|
    ensures At(values, i, k, AllBranches(values)[p]) && i < |values| && k < |Split(values[i], '|')|
    ensures AllBranches(values)[..p + 1] == AllBranches(values[..i]) + Split(values[i], '|')[..k + 1]
  {
    hide Split, At;
    var init, last := values[..|values| - 1], Split(values[|values| - 1], '|');
    var before := AllBranches(init);
    if p < |before| {
      i, k := PlaceOf(init, p);
      PlaceGrows(init, values[|values| - 1], i, k, before[p]);
      assert values == init + [values[|values| - 1]] && values[..i] == init[..i];
      PrefixWithin(before, last, p + 1);
    } else {
      i, k := |init|, p - |before|;
      PrefixBeyond(before, last, k + 1);
      assert values[..i] == init && At(values, i, k, last[k]) by { LastPlace(values, k); }
    }
  }

  lemma PlaceGrows(init: seq<string>, value: string, i: nat, k: nat, branch: string)
    requires At(init, i, k, branch)
    ensures At(init + [value], i, k, branch) && i < |init| && (init + [value])[i] == init[i]
    ensures k < |Split(init[i], '|')|
  {
    hide Split;
  }

  lemma LastPlace(values: seq<string>, k: nat)
    requires values != [] && k < |Split(values[|values| - 1], '|')|
    ensures At(values, |values| - 1, k, Split(values[|values| - 1], '|')[k])
  {
    hide Split;
  }

  lemma PrefixWithin(a: seq<string>, b: seq<string>, n: nat)
    requires n <= |a|
    ensures (a + b)[..n] == a[..n]
  {
  }

  lemma PrefixBeyond(a: seq<string>, b: seq<string>, n: nat)
    requires n <= |b|
    ensures (a + b)[..|a| + n] == a + b[..n]
  {
  }

  lemma {:induction false} PlaceIn(values: seq<string>, i: int, k: int, branch: string)
    requires At(values, i, k, branch)
    ensures branch in AllBranches(values)
  {
    if i < |values| - 1 {
      assert values[..|values| - 1][i] == values[i];
      PlaceIn(values[..|values| - 1], i, k, branch);
    }
  }

  /** A merge has every non-empty branch of its values once, in the order they are first met. */
  lemma MergedOrder(values: seq<string>)
    ensures var d := UnionBranches(values);
            && (forall b :: b in d <==> b != "" && exists i, k :: At(values, i, k, b))
            && (forall x, y :: 0 <= x < y < |d| ==> d[x] != d[y] && Sooner(values, d[x], d[y]))
  {
    var all, d := AllBranches(values), UnionBranches(values);
    DistinctEntries(all);
    DistinctOrder(all);
    forall b ensures b in all <==> exists i, k :: At(values, i, k, b) {
      if b in all {
        var p :| 0 <= p < |all| && all[p] == b;
        var i, k := PlaceOf(values, p);
      }
      if i, k :| At(values, i, k, b) {
        PlaceIn(values, i, k, b);
      }
    }
    forall x, y | 0 <= x < y < |d| ensures Sooner(values, d[x], d[y]) {
      SoonerAt(values, d[x], d[y]);
    }
  }

  lemma SoonerAt(values: seq<string>, first: string, second: string)
    requires FirstBefore(AllBranches(values), first, second)
    ensures Sooner(values, first, second)
  {
    var all := AllBranches(values);
    var p :| FoundAt(all, p, first, second);
    var i, k := PlaceOf(values, p);
    PlacesBefore(values, i, k, second);
  }

  lemma PlacesBefore(values: seq<string>, i: nat, k: nat, branch: string)
    requires i < |values| && k < |Split(values[i], '|')|
    ensures Unseen(values, i, k, branch) || branch in AllBranches(values[..i]) + Split(values[i], '|')[..k + 1]
  {
    if j, l :| At(values, j, l, branch) && (j < i || (j == i && l <= k)) {
      PlaceBefore(values, i, k, j, l, branch);
    }
  }

  lemma PlaceBefore(values: seq<string>, i: nat, k: nat, j: int, l: int, branch: string)
    requires i < |values| && k < |Split(values[i], '|')| && At(values, j, l, branch)
    requires j < i || (j == i && l <= k)
    ensures branch in AllBranches(values[..i]) + Split(values[i], '|')[..k + 1]
  {
    if j < i {
      assert values[..i][j] == values[j];
      PlaceIn(values[..i], j, l, branch);
    } else {
      assert Split(values[i], '|')[..k + 1][l] == branch;
    }
  }

  // ---- `a ?? b`.

  /** The branches of a type that are not nullish, each once, in their order. */
  function Kept(branches: seq<string>): seq<string> {
    if branches == [] then []
    else
      var init, b := Kept(branches[..|branches| - 1]), branches[|branches| - 1];
      if b == "" || NullBranch(b) || b in init then init else init + [b]
  }

  lemma {:induction false} KeptAre(branches: seq<string>)
    ensures forall b :: b in Kept(branches) <==> b in branches && b != "" && !NullBranch(b)
    ensures Distinct(Kept(branches)) == Kept(branches)
  {
    if branches != [] {
      var init, b := branches[..|branches| - 1], branches[|branches| - 1];
      KeptAre(init);
      assert branches == init + [b];
      assert (Kept(init) + [b])[..|Kept(init)|] == Kept(init);
    }
  }

  lemma SplitOne(branch: string)
    requires Branch(branch) && branch != ""
    ensures Split(branch, '|') == [branch]
  {
    var one := [branch];
    SplitJoin(one);
    assert one[0] == branch && Join(one) == branch;
  }

  lemma SeparablePrefix(branches: seq<string>, b: string)
    requires Separable(branches + [b])
    ensures Separable(branches)
  {
    forall i | 0 <= i < |branches| - 1 ensures Clean(branches[i]) {
      assert (branches + [b])[i] == branches[i];
    }
  }

  /** Folding the branches one by one joins them, if none but the last leaves something open. */
  lemma {:induction false} KeptJoins(branches: seq<string>)
    requires (forall b :: b in branches ==> Branch(b)) && Separable(Kept(branches))
    ensures WithoutNullish(branches) == Join(Kept(branches))
  {
    hide Branch, Clean, MergeTypes;
    if branches != [] {
      var init, b := branches[..|branches| - 1], branches[|branches| - 1];
      assert branches == init + [b];
      assert forall x :: x in init ==> x in branches;
      KeptAre(init);
      if b == "" || NullBranch(b) {
        KeptJoins(init);
      } else {
        assert Separable(Kept(init)) by {
          if b !in Kept(init) { SeparablePrefix(Kept(init), b); }
        }
        KeptJoins(init);
        assert b in branches;
        JoinOneMore(Kept(init), b);
      }
    }
  }

  lemma JoinOneMore(d: seq<string>, b: string)
    requires Distinct(d) == d && Separable(d) && Branch(b) && b != ""
    requires forall x :: x in d ==> Branch(x) && x != ""
    ensures MergeTypes([Join(d), b]) == Join(if b in d then d else d + [b])
  {
    JoinedBranches(d, [b]);
    assert [Join(d)] + [b] == [Join(d), b];
    SplitOne(b);
    AllBranchesOne(b);
    DistinctPrefix(d, b);
  }

  lemma DistinctPrefix(d: seq<string>, b: string)
    requires Distinct(d) == d && b != ""
    ensures Distinct(d + [b]) == if b in d then d else d + [b]
  {
    assert (d + [b])[..|d|] == d;
  }

  /** Merging further values into a joined list adds their branches to it. */
  lemma JoinedBranches(branches: seq<string>, values: seq<string>)
    requires Distinct(branches) == branches && Separable(branches)
    requires forall b :: b in branches ==> Branch(b) && b != ""
    ensures UnionBranches([Join(branches)] + values) == Distinct(branches + AllBranches(values))
  {
    var joined := Join(branches);
    AllBranchesConcat([joined], values);
    AllBranchesOne(joined);
    if branches == [] {
      EmptySplit();
      DistinctConcat([""], AllBranches(values));
      assert [""][..0] == [] && Distinct([""]) == [];
      assert [] + AllBranches(values) == AllBranches(values);
    } else {
      SplitJoin(branches);
    }
  }

  /** The right operand is left out: it is unresolved, or says nothing beside a left one that does. */
  predicate RightDropped(left: string, right: string) {
    var kept := Kept(Split(left, '|'));
    && kept != []
    && (right == "" || ((forall b :: b in Split(right, '|') ==> !Says(b)) && exists b :: b in kept && Says(b)))
  }

  /** The branches of the type of `a ?? b`. */
  function NullishBranches(left: string, right: string): seq<string> {
    var kept := Kept(Split(left, '|'));
    if kept == [] then Split(right, '|')
    else if RightDropped(left, right) then kept
    else Distinct(kept + Split(right, '|'))
  }

  lemma {:induction false} JoinTrimmed(branches: seq<string>)
    requires branches != [] && forall b :: b in branches ==> Trimmed(b) && b != ""
    ensures Join(branches) != "" && Trimmed(Join(branches))
    ensures Join(branches)[0] == branches[0][0]
  {
    assert branches[0] in branches;
    if |branches| > 1 {
      JoinTrimmed(branches[1..]);
    }
  }

  lemma LeftKept(left: string)
    requires Separable(Kept(Split(left, '|')))
    ensures var kept := Kept(Split(left, '|'));
            && WithoutNullish(Split(left, '|')) == Join(kept)
            && (forall b :: b in kept ==> Branch(b) && b != "")
            && (kept != [] ==> Join(kept) != "" && Split(Join(kept), '|') == kept)
  {
    var kept := Kept(Split(left, '|'));
    SplitYieldsBranches(left);
    KeptAre(Split(left, '|'));
    KeptJoins(Split(left, '|'));
    if kept != [] {
      JoinTrimmed(kept);
      SplitJoin(kept);
    }
  }

  /** The type of `a ?? b` has the branches of `a` that are not nullish and then those of `b`,
      exactly if each of them leaves nothing open before the next. */
  lemma NullishBranchesIff(left: string, right: string)
    requires Separable(Kept(Split(left, '|')))
    ensures Kept(Split(left, '|')) == [] ==> MergeNullish(left, right) == right
    ensures Kept(Split(left, '|')) != [] ==>
              (Split(MergeNullish(left, right), '|') == NullishBranches(left, right)
               <==> Separable(NullishBranches(left, right)))
  {
    hide Split, Kept, Branch, Says, Distinct, RightDropped, MergeNullish;
    var kept := Kept(Split(left, '|'));
    LeftKept(left);
    KeptAre(Split(left, '|'));
    NullishIs(left, right);
    if kept != [] && !RightDropped(left, right) {
      JoinedBranches(kept, [right]);
      AllBranchesOne(right);
      assert [Join(kept)] + [right] == [Join(kept), right];
      SplitMergedUnion([Join(kept), right]);
      KeptStart(kept, Split(right, '|'));
    }
  }

  lemma NullishIs(left: string, right: string)
    requires Separable(Kept(Split(left, '|')))
    ensures var kept := Kept(Split(left, '|'));
            MergeNullish(left, right)
            == if kept == [] then right else if RightDropped(left, right) then Join(kept)
               else MergeTypes([Join(kept), right])
  {
    hide Split, Kept, Branch, Says, Distinct, Separable, MergeTypes;
    LeftKept(left);
    WeakSeedIff(right);
    WeakSeedIff(Join(Kept(Split(left, '|'))));
  }

  lemma KeptStart(kept: seq<string>, more: seq<string>)
    requires kept != [] && forall b :: b in kept ==> b != ""
    ensures Distinct(kept + more) != []
  {
    DistinctEntries(kept + more);
    assert kept[0] in kept && kept[0] in kept + more;
    assert kept[0] in Distinct(kept + more);
  }

  // ---- Values.

  datatype Value = NullValue | UndefinedValue | Ordinary(text: string)

  /** Which values a branch admits when it is read in a file. */
  type Reading = (string, string, Value) -> bool

  /** `null` and `undefined` mean themselves; other branches mean anything. */
  ghost predicate Plain(means: Reading) {
    forall path, v :: (means(path, "null", v) <==> v == NullValue) && (means(path, "undefined", v) <==> v == UndefinedValue)
  }

  ghost predicate Inhabits(means: Reading, path: string, vueType: string, v: Value) {
    exists b :: b in Split(vueType, '|') && b != "" && means(path, b, v)
  }

  /** What `a ?? b` can be: a value of `a` that is not nullish, or any value of `b`. */
  ghost predicate NullishValue(means: Reading, path: string, left: string, right: string, v: Value) {
    Inhabits(means, path, right, v) || (v.Ordinary? && Inhabits(means, path, left, v))
  }

  ghost predicate Covers(left: string, right: string) {
    forall means: Reading, path, v :: Plain(means) && NullishValue(means, path, left, right, v) ==>
      Inhabits(means, path, MergeNullish(left, right), v)
  }

  /** Every branch of the right operand is one of the left operand that is kept. */
  predicate RightRepeats(left: string, right: string) {
    forall b :: b in Split(right, '|') && b != "" ==> b in Kept(Split(left, '|'))
  }

  /** The only values the type of `a ?? b` can admit beyond these are the nullish ones of a branch
      of `a` that is neither `null` nor `undefined`. */
  lemma NullishAdmits(means: Reading, path: string, left: string, right: string, v: Value)
    requires Plain(means) && Separable(Kept(Split(left, '|'))) && Separable(NullishBranches(left, right))
    ensures !RightDropped(left, right) ==>
              (Inhabits(means, path, MergeNullish(left, right), v) <==>
               Inhabits(means, path, right, v)
               || exists b :: b in Split(left, '|') && b != "" && !NullBranch(b) && means(path, b, v))
    ensures RightDropped(left, right) ==>
              (Inhabits(means, path, MergeNullish(left, right), v) <==>
               exists b :: b in Split(left, '|') && b != "" && !NullBranch(b) && means(path, b, v))
  {
    NullishBranchesIff(left, right);
    KeptAre(Split(left, '|'));
    DistinctEntries(Kept(Split(left, '|')) + Split(right, '|'));
  }

  /** Exactly when the right operand is not left out, or has nothing of its own, every value of
      `a ?? b` inhabits the type inferred for it. */
  lemma CoversIff(left: string, right: string)
    requires Separable(Kept(Split(left, '|'))) && Separable(NullishBranches(left, right))
    ensures Covers(left, right) <==> !RightDropped(left, right) || RightRepeats(left, right)
  {
    hide RightDropped, RightRepeats, NullishValue, Inhabits, Separable, NullishBranches, Plain;
    if !RightDropped(left, right) || RightRepeats(left, right) {
      forall means: Reading, path, v | Plain(means) && NullishValue(means, path, left, right, v)
        ensures Inhabits(means, path, MergeNullish(left, right), v)
      {
        CoveredAdmits(means, path, left, right, v);
      }
    } else {
      NotRepeated(left, right);
    }
  }

  lemma CoveredAdmits(means: Reading, path: string, left: string, right: string, v: Value)
    requires Separable(Kept(Split(left, '|'))) && Separable(NullishBranches(left, right))
    requires Plain(means) && NullishValue(means, path, left, right, v)
    requires !RightDropped(left, right) || RightRepeats(left, right)
    ensures Inhabits(means, path, MergeNullish(left, right), v)
  {
    hide Split, Kept, RightDropped, Separable, NullishBranches, MergeNullish;
    NullishAdmits(means, path, left, right, v);
    KeptAre(Split(left, '|'));
    assert !means(path, "null", v) || v == NullValue;
    assert !means(path, "undefined", v) || v == UndefinedValue;
  }

  lemma NotRepeated(left: string, right: string)
    requires Separable(Kept(Split(left, '|'))) && Separable(NullishBranches(left, right))
    requires RightDropped(left, right) && !RightRepeats(left, right)
    ensures !Covers(left, right)
  {
    hide Split, Kept, RightDropped, Separable, NullishBranches, MergeNullish, Covers;
    var b :| b in Split(right, '|') && b != "" && b !in Kept(Split(left, '|'));
    OnlyHere(left, right, b);
  }

  /** A reading under which a branch of the right operand is the only one to admit some value. */
  lemma OnlyHere(left: string, right: string, b: string)
    requires Separable(Kept(Split(left, '|'))) && Separable(NullishBranches(left, right)) && RightDropped(left, right)
    requires b in Split(right, '|') && b != "" && b !in Kept(Split(left, '|'))
    ensures !Covers(left, right)
  {
    hide Split, Kept, RightDropped, Separable, NullishBranches, MergeNullish;
    var value := if b == "null" then NullValue else if b == "undefined" then UndefinedValue else Ordinary("");
    var means: Reading := (path: string, branch: string, v: Value) =>
      if branch == "null" then v == NullValue
      else if branch == "undefined" then v == UndefinedValue
      else branch == b && v == value;
    assert Plain(means);
    assert means("", b, value);
    assert NullishValue(means, "", left, right, value);
    NullishAdmits(means, "", left, right, value);
    KeptAre(Split(left, '|'));
    assert !Inhabits(means, "", MergeNullish(left, right), value);
  }

  lemma {:induction false} LettersNoCut(text: string, st: TypeScan)
    requires Neutral(st) && forall c :: c in text ==> 'a' <= c <= 'z'
    ensures FirstPiece(text, '|', st) == (text, None)
  {
    if text != "" {
      assert text[0] in text && forall c :: c in text[1..] ==> c in text;
      assert Turn(st, text, '|') == (st, 1, false);
      LettersNoCut(text[1..], st);
      Rejoin(text, 1);
    }
  }

  /** The failing case in the small: `a ?? null` is given the type of `a` without `null`. */
  lemma NullIsLost(left: string)
    requires Separable(Kept(Split(left, '|'))) && exists b :: b in Kept(Split(left, '|')) && Says(b)
    ensures !Covers(left, "null")
  {
    hide NullishBranches, Covers;
    LettersNoCut("null", NEUTRAL);
    TrimmedFixed("null");
    assert Split("null", '|') == ["null"];
    assert "null" in Split("null", '|') && !Says("null");
    KeptAre(Split(left, '|'));
    assert RightDropped(left, "null");
    assert NullishBranches(left, "null") == Kept(Split(left, '|')) by { NullishDropped(left, "null"); }
    CoversIff(left, "null");
  }

  lemma NullishDropped(left: string, right: string)
    requires RightDropped(left, right)
    ensures NullishBranches(left, right) == Kept(Split(left, '|'))
  {
  }

  // ---- Whole expressions.

  /** The values an expression can have, given those of its leaves. */
  ghost predicate Yields(leaf: (TypeExpression, Value) -> bool, e: TypeExpression, v: Value) {
    match e
    case Nullish(left, right) =>
      || (v.Ordinary? && Yields(leaf, left, v))
      || (Yields(leaf, right, v) && (Yields(leaf, left, NullValue) || Yields(leaf, left, UndefinedValue)))
    case _ => leaf(e, v)
  }

  ghost predicate Typed(means: Reading, leaf: (TypeExpression, Value) -> bool, e: TypeExpression, resolved: Resolved) {
    forall v :: Yields(leaf, e, v) ==> Inhabits(means, resolved.contextPath, resolved.resolvedType, v)
  }

  /** Every leaf that is met has a type its values inhabit. */
  ghost predicate LeavesTyped(index: TypeIndex, c: Component, context: string, means: Reading,
                              leaf: (TypeExpression, Value) -> bool, e: TypeExpression)
  {
    match e
    case Nullish(left, right) =>
      LeavesTyped(index, c, context, means, leaf, left) && LeavesTyped(index, c, context, means, leaf, right)
    case _ => Typed(means, leaf, e, Resolve(index, c, e, context).resolved)
  }

  /** The type of `a ?? b` is read in the file of `a`, or of `b` if `a` has none. */
  predicate SameFile(left: Resolved, right: Resolved) {
    left.contextPath == right.contextPath
    || (left.contextPath == "" && Kept(Split(left.resolvedType, '|')) == [])
  }

  /** No operand is left out with branches of its own, or read in another file. */
  predicate NodeCovered(left: Resolved, right: Resolved) {
    var l, r := left.resolvedType, right.resolvedType;
    && Separable(Kept(Split(l, '|'))) && Separable(NullishBranches(l, r))
    && (!RightDropped(l, r) || RightRepeats(l, r)) && SameFile(left, right)
  }

  predicate NodesCovered(index: TypeIndex, c: Component, context: string, e: TypeExpression) {
    match e
    case Nullish(left, right) =>
      && NodesCovered(index, c, context, left) && NodesCovered(index, c, context, right)
      && NodeCovered(Resolve(index, c, left, context).resolved, Resolve(index, c, right, context).resolved)
    case _ => true
  }

  /** Every value of an expression inhabits the type inferred for it, in the file it is read in. */
  lemma {:induction false} ExpressionInhabits(index: TypeIndex, c: Component, context: string, means: Reading,
                                              leaf: (TypeExpression, Value) -> bool, e: TypeExpression)
    requires Plain(means) && LeavesTyped(index, c, context, means, leaf, e) && NodesCovered(index, c, context, e)
    ensures Typed(means, leaf, e, Resolve(index, c, e, context).resolved)
  {
    hide Separable, NullishBranches, RightDropped, RightRepeats, MergeNullish, Kept;
    match e
    case Nullish(left, right) =>
      ExpressionInhabits(index, c, context, means, leaf, left);
      ExpressionInhabits(index, c, context, means, leaf, right);
      var l, r := Resolve(index, c, left, context).resolved, Resolve(index, c, right, context).resolved;
      var whole := Resolve(index, c, e, context).resolved;
      forall v | Yields(leaf, e, v) ensures Inhabits(means, whole.contextPath, whole.resolvedType, v) {
        NodeInhabits(means, l, r, v);
      }
    case _ =>
  }

  lemma NodeInhabits(means: Reading, left: Resolved, right: Resolved, v: Value)
    requires Plain(means) && NodeCovered(left, right)
    requires Inhabits(means, right.contextPath, right.resolvedType, v)
             || (v.Ordinary? && Inhabits(means, left.contextPath, left.resolvedType, v))
    ensures Inhabits(means, if left.contextPath == "" then right.contextPath else left.contextPath,
                     MergeNullish(left.resolvedType, right.resolvedType), v)
  {
    hide Separable, NullishBranches, RightDropped, RightRepeats, MergeNullish, Kept, Split;
    var l, r := left.resolvedType, right.resolvedType;
    KeptAre(Split(l, '|'));
    if left.contextPath == right.contextPath {
      CoveredAdmits(means, right.contextPath, l, r, v);
    } else {
      NullishBranchesIff(l, r);
      if v.Ordinary? && Inhabits(means, left.contextPath, l, v) {
        var b :| b in Split(l, '|') && b != "" && means(left.contextPath, b, v);
        assert means(left.contextPath, "null", v) <==> v == NullValue;
        assert means(left.contextPath, "undefined", v) <==> v == UndefinedValue;
      }
    }
  }

  /** The ordinary values of the left operand are admitted even if the right one is left out or
      comes from another file. */
  lemma LeftInhabits(index: TypeIndex, c: Component, context: string, means: Reading,
                     left: TypeExpression, right: TypeExpression, v: Value)
    requires Plain(means) && v.Ordinary?
    requires var l, r := Resolve(index, c, left, context).resolved, Resolve(index, c, right, context).resolved;
             && Separable(Kept(Split(l.resolvedType, '|'))) && Separable(NullishBranches(l.resolvedType, r.resolvedType))
             && (l.contextPath != "" || r.contextPath == "") && Inhabits(means, l.contextPath, l.resolvedType, v)
    ensures var whole := Resolve(index, c, Nullish(left, right), context).resolved;
            whole.contextPath == Resolve(index, c, left, context).resolved.contextPath
            && Inhabits(means, whole.contextPath, whole.resolvedType, v)
  {
    hide Separable, NullishBranches, RightDropped, MergeNullish, Kept, Split;
    var l, r := Resolve(index, c, left, context).resolved, Resolve(index, c, right, context).resolved;
    NullishAdmits(means, l.contextPath, l.resolvedType, r.resolvedType, v);
    assert means(l.contextPath, "null", v) <==> v == NullValue;
    assert means(l.contextPath, "undefined", v) <==> v == UndefinedValue;
  }

  // ---- Writes.

  /** The branches that are no placeholders, in their order. */
  function Real(branches: seq<string>): seq<string> {
    if branches == [] then []
    else
      var init, b := Real(branches[..|branches| - 1]), branches[|branches| - 1];
      if Placeholder(b) then init else init + [b]
  }

  lemma {:induction false} RealAre(branches: seq<string>)
    ensures forall b :: b in Real(branches) <==> b in branches && !Placeholder(b)
    ensures Without(branches, PLACEHOLDERS) == Real(branches)
  {
    hide Placeholder;
    if branches != [] {
      RealAre(branches[..|branches| - 1]);
      assert branches == branches[..|branches| - 1] + [branches[|branches| - 1]];
      PlaceholdersAre(branches[|branches| - 1]);
    }
  }

  /** The writes' branches and then those of the initial type, as far as they are no placeholders. */
  function WrittenBranches(initialType: string, assignments: seq<string>): seq<string> {
    Real(UnionBranches(assignments + [initialType]))
  }

  ghost predicate SaysSomething(initialType: string, assignments: seq<string>) {
    exists i, k, b :: At(assignments + [initialType], i, k, b) && Says(b)
  }

  /** The merge is empty exactly if nothing is said; otherwise it has those branches exactly if
      each of them leaves nothing open before the next. */
  lemma AssignmentBranchesIff(initialType: string, assignments: seq<string>)
    ensures MergeAssignmentTypes(initialType, assignments) == "" <==> !SaysSomething(initialType, assignments)
    ensures SaysSomething(initialType, assignments) ==>
              (Split(MergeAssignmentTypes(initialType, assignments), '|') == WrittenBranches(initialType, assignments)
               <==> Separable(WrittenBranches(initialType, assignments)))
  {
    hide Says, Split, Distinct, Branch, Separable;
    var all := assignments + [initialType];
    var alternatives := UnionBranches(all);
    MergedOrder(all);
    RealAre(alternatives);
    AllBranchesAre(all);
    DistinctEntries(AllBranches(all));
    forall b ensures WeakEntry(b) <==> !Says(b) {
      PlaceholdersAre(b);
    }
    SaysMeans();
    assert (exists b :: b in alternatives && Says(b)) <==> SaysSomething(initialType, assignments);
    if b :| b in alternatives && Says(b) {
      assert b in Real(alternatives);
      BranchesTrimmed(Real(alternatives));
      SplitJoin(Real(alternatives));
      JoinTrimmed(Real(alternatives));
    }
  }

  lemma SaysMeans()
    ensures forall b :: Says(b) ==> b != "" && !Placeholder(b)
  {
  }

  lemma BranchesTrimmed(branches: seq<string>)
    ensures (forall b :: b in branches ==> Branch(b)) ==> forall b :: b in branches ==> Trimmed(b)
  {
  }
}
