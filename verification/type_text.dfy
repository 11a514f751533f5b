/** Type expressions as text: splitting at a top-level separator, merging unions
    and substituting type parameters (internal/admin/type_index.go,
    meteor_declaration.go and component_type_inference.go). */
module TypeText {
  import opened AdminModel
  import opened TextScan

  /** declarationScanState, with the angle counter splitAdminTypeTopLevel keeps beside it. */
  datatype TypeScan = TypeScan(quoted: bool, quote: char, escaped: bool, lineComment: bool, blockComment: bool,
                               braces: nat, parens: nat, brackets: nat, angles: nat)
  {
    predicate InLiteralOrComment() {
      quoted || lineComment || blockComment
    }

    predicate Flat() {
      braces == 0 && parens == 0 && brackets == 0 && angles == 0
    }

    function Count(c: char): TypeScan {
      match c
      case '{' => this.(braces := braces + 1)
      case '}' => this.(braces := if braces > 0 then braces - 1 else 0)
      case '(' => this.(parens := parens + 1)
      case ')' => this.(parens := if parens > 0 then parens - 1 else 0)
      case '[' => this.(brackets := brackets + 1)
      case ']' => this.(brackets := if brackets > 0 then brackets - 1 else 0)
      case '<' => this.(angles := angles + 1)
      case '>' => this.(angles := if angles > 0 then angles - 1 else 0)
      case _ => this
    }
  }

  const NEUTRAL := TypeScan(false, '\0', false, false, false, 0, 0, 0, 0)

  /** No literal, comment or delimiter is open. */
  predicate Neutral(st: TypeScan) {
    !st.InLiteralOrComment() && st.Flat() && !st.escaped
  }

  /** declarationScanState.consume on the text that remains: the new state and how many
      characters it took. */
  function Consume(st: TypeScan, rest: string): (r: (TypeScan, nat))
    requires rest != ""
    ensures 1 <= r.1 <= |rest| && r.1 <= 2
  {
    var c, ahead := rest[0], if |rest| > 1 then rest[1] else '\0';
    if st.lineComment then (if c == '\n' then st.(lineComment := false) else st, 1)
    else if st.blockComment then
      if c == '*' && |rest| > 1 && ahead == '/' then (st.(blockComment := false), 2) else (st, 1)
    else if st.quoted then
      if st.escaped then (st.(escaped := false), 1)
      else if c == '\\' then (st.(escaped := true), 1)
      else (if c == st.quote then st.(quoted := false) else st, 1)
    else if c == '/' && |rest| > 1 && ahead == '/' then (st.(lineComment := true), 2)
    else if c == '/' && |rest| > 1 && ahead == '*' then (st.(blockComment := true), 2)
    else (if IsQuote(c) then st.(quoted := true, quote := c) else st, 1)
  }

  /** One turn of the splitting loop: the next state, the characters taken, and whether
      the last of them is a top-level separator. */
  function Turn(st: TypeScan, rest: string, separator: char): (r: (TypeScan, nat, bool))
    requires rest != ""
    ensures 1 <= r.1 <= |rest| && r.1 <= 2
    ensures r.2 ==> rest[r.1 - 1] == separator
  {
    var (next, taken) := Consume(st, rest);
    if next.InLiteralOrComment() then (next, taken, false)
    else
      var counted := next.Count(rest[taken - 1]);
      (counted, taken, rest[taken - 1] == separator && counted.Flat())
  }

  /** The text up to the first top-level separator, and what follows it. */
  function FirstPiece(rest: string, separator: char, st: TypeScan): (r: (string, Option<string>))
    ensures r.1.None? ==> r.0 == rest
    ensures r.1.Some? ==> rest == r.0 + [separator] + r.1.value
  {
    if rest == "" then ("", None)
    else
      var (next, taken, cut) := Turn(st, rest, separator);
      if cut then (rest[..taken - 1], Some(rest[taken..]))
      else
        var (raw, tail) := FirstPiece(rest[taken..], separator, next);
        (rest[..taken] + raw, tail)
  }

  /** splitAdminTypeTopLevel. At a cut nothing is open, so every piece starts afresh. */
  function Split(value: string, separator: char): (pieces: seq<string>)
    ensures pieces != []
    decreases |value|
  {
    var (raw, tail) := FirstPiece(value, separator, NEUTRAL);
    [Trim(raw)] + match tail case None => [] case Some(t) => Split(t, separator)
  }

  /** A separator that delimits nothing itself: '|', '&' or ','. */
  predicate PlainSeparator(c: char) {
    c == '|' || c == '&' || c == ','
  }

  /** States the loop can be in: an escape is only pending inside a quote. */
  predicate Reachable(st: TypeScan) {
    (st.escaped ==> st.quoted) && !(st.lineComment && st.blockComment)
    && (st.quoted ==> !st.lineComment && !st.blockComment && IsQuote(st.quote))
  }

  lemma CountQuoteBlind(st: TypeScan, quote: char, c: char)
    ensures st.(quote := quote).Count(c) == st.Count(c).(quote := quote) && st.Count(c).quoted == st.quoted
    ensures st.Count(c).quote == st.quote
  {
    match c
    case '{' =>
    case '}' =>
    case '(' =>
    case ')' =>
    case '[' =>
    case ']' =>
    case '<' =>
    case '>' =>
    case _ =>
  }

  lemma ConsumeQuoteBlind(rest: string, a: TypeScan, b: TypeScan)
    requires rest != "" && b == a.(quote := b.quote) && (a.quoted ==> a == b)
    ensures var na, nb := Consume(a, rest).0, Consume(b, rest).0;
            nb == na.(quote := nb.quote) && (na.quoted ==> na == nb)
    ensures Consume(a, rest).1 == Consume(b, rest).1
  {
  }

  /** The loop only looks at what is open, not at the quote that was open last. */
  lemma TurnQuoteBlind(rest: string, separator: char, a: TypeScan, b: TypeScan)
    requires rest != "" && b == a.(quote := b.quote) && (a.quoted ==> a == b)
    ensures var (na, ta, ca) := Turn(a, rest, separator);
            var (nb, tb, cb) := Turn(b, rest, separator);
            ta == tb && ca == cb && nb == na.(quote := nb.quote) && (na.quoted ==> na == nb)
  {
    hide Consume, TypeScan.Count;
    ConsumeQuoteBlind(rest, a, b);
    var (na, taken) := Consume(a, rest);
    CountQuoteBlind(na, Consume(b, rest).0.quote, rest[taken - 1]);
  }

  /** So FirstPiece starts alike from any neutral state. */
  lemma {:induction false} FirstPieceQuoteBlind(rest: string, separator: char, a: TypeScan, b: TypeScan)
    requires b == a.(quote := b.quote) && (a.quoted ==> a == b)
    ensures FirstPiece(rest, separator, a) == FirstPiece(rest, separator, b)
  {
    hide Turn;
    if rest != "" {
      var (na, ta, ca) := Turn(a, rest, separator);
      var (nb, tb, cb) := Turn(b, rest, separator);
      TurnQuoteBlind(rest, separator, a, b);
      FirstPieceQuoteBlind(rest[ta..], separator, na, nb);
    }
  }

  /** The pieces still to come when `text` has been read since the last cut. */
  function Pending(text: string, rest: string, separator: char, st: TypeScan): seq<string> {
    var (raw, tail) := FirstPiece(rest, separator, st);
    [Trim(text + raw)] + match tail case None => [] case Some(t) => Split(t, separator)
  }

  lemma PendingContinues(text: string, rest: string, separator: char, st: TypeScan)
    requires rest != "" && !Turn(st, rest, separator).2
    ensures var (next, taken, cut) := Turn(st, rest, separator);
            Pending(text, rest, separator, st) == Pending(text + rest[..taken], rest[taken..], separator, next)
  {
    var (next, taken, cut) := Turn(st, rest, separator);
    var (raw, tail) := FirstPiece(rest[taken..], separator, next);
    Reassociate(text, rest[..taken], raw);
  }

  lemma PendingCuts(text: string, rest: string, separator: char, st: TypeScan)
    requires PlainSeparator(separator) && Reachable(st)
    requires rest != "" && Turn(st, rest, separator).2
    ensures var (next, taken, cut) := Turn(st, rest, separator);
            Pending(text, rest, separator, st)
            == [Trim(text + rest[..taken - 1])] + Pending("", rest[taken..], separator, next)
  {
    var (next, taken, cut) := Turn(st, rest, separator);
    FirstPieceQuoteBlind(rest[taken..], separator, next, NEUTRAL);
    var (raw, tail) := FirstPiece(rest[taken..], separator, next);
    assert "" + raw == raw;
  }

  lemma SliceStep(value: string, start: nat, index: nat, taken: nat)
    requires start <= index && index + taken <= |value|
    ensures value[start..index] + value[index..][..taken] == value[start..index + taken]
    ensures value[index..][taken..] == value[index + taken..]
  {
  }

  /** The loop invariant: the pieces found so far and the pending ones make up the whole split. */
  ghost predicate Splitting(whole: seq<string>, value: string, separator: char, found: seq<string>,
                            start: int, index: int, st: TypeScan)
  {
    && 0 <= start <= index <= |value| && Reachable(st)
    && whole == found + Pending(value[start..index], value[index..], separator, st)
  }

  lemma SplittingCuts(whole: seq<string>, value: string, separator: char, found: seq<string>,
                      start: int, index: int, st: TypeScan, next: TypeScan, taken: nat)
    requires PlainSeparator(separator) && Splitting(whole, value, separator, found, start, index, st)
    requires index < |value| && Turn(st, value[index..], separator) == (next, taken, true)
    ensures Splitting(whole, value, separator, found + [Trim(value[start..index + taken - 1])],
                      index + taken, index + taken, next)
  {
    var end := index + taken;
    var text, rest, piece, tail := value[start..index], value[index..], value[start..end - 1], value[end..];
    assert piece == text + rest[..taken - 1] by { SliceStep(value, start, index, taken - 1); }
    assert tail == rest[taken..] by { SliceStep(value, start, index, taken); }
    CutPending(whole, found, text, rest, separator, st, next, taken, piece, tail);
    assert value[end..end] == "";
  }

  lemma CutPending(whole: seq<string>, found: seq<string>, text: string, rest: string, separator: char,
                   st: TypeScan, next: TypeScan, taken: nat, piece: string, tail: string)
    requires PlainSeparator(separator) && Reachable(st)
    requires rest != "" && Turn(st, rest, separator) == (next, taken, true)
    requires piece == text + rest[..taken - 1] && tail == rest[taken..]
    requires whole == found + Pending(text, rest, separator, st)
    ensures whole == found + [Trim(piece)] + Pending("", tail, separator, next) && Reachable(next)
  {
    hide Pending;
    PendingCuts(text, rest, separator, st);
    AppendPiece(found, Trim(piece), Pending("", tail, separator, next));
  }

  lemma AppendPiece(found: seq<string>, piece: string, rest: seq<string>)
    ensures found + ([piece] + rest) == found + [piece] + rest
  {
  }

  lemma SplittingContinues(whole: seq<string>, value: string, separator: char, found: seq<string>,
                           start: int, index: int, st: TypeScan, next: TypeScan, taken: nat)
    requires PlainSeparator(separator) && Splitting(whole, value, separator, found, start, index, st)
    requires index < |value| && Turn(st, value[index..], separator) == (next, taken, false)
    ensures Splitting(whole, value, separator, found, start, index + taken, next)
  {
    SliceStep(value, start, index, taken);
    PendingContinues(value[start..index], value[index..], separator, st);
  }

  /** The loop of splitAdminTypeTopLevel. */
  method SplitAdminTypeTopLevel(value: string, separator: char) returns (result: seq<string>)
    requires PlainSeparator(separator)
    ensures result == Split(value, separator)
  {
    hide FirstPiece, Trim;
    result := [];
    var start, index, st := 0, 0, NEUTRAL;
    SplittingStarts(value, separator);
    ghost var whole := Split(value, separator);
    while index < |value|
      invariant Splitting(whole, value, separator, result, start, index, st)
      decreases |value| - index
    {
      var (next, taken, cut) := Turn(st, value[index..], separator);
      if cut {
        SplittingCuts(whole, value, separator, result, start, index, st, next, taken);
        result := result + [Trim(value[start..index + taken - 1])];
        start := index + taken;
      } else {
        SplittingContinues(whole, value, separator, result, start, index, st, next, taken);
      }
      index := index + taken;
      st := next;
    }
    SplittingEnds(whole, value, separator, result, start, st);
    result := result + [Trim(value[start..])];
  }

  lemma SplittingEnds(whole: seq<string>, value: string, separator: char, found: seq<string>, start: int, st: TypeScan)
    requires Splitting(whole, value, separator, found, start, |value|, st)
    ensures whole == found + [Trim(value[start..])]
  {
    assert value[|value|..] == "" && value[start..|value|] + "" == value[start..];
  }

  lemma SplittingStarts(value: string, separator: char)
    ensures Splitting(Split(value, separator), value, separator, [], 0, 0, NEUTRAL)
  {
    assert value[0..0] == "" && value[0..] == value;
    var (raw, tail) := FirstPiece(value, separator, NEUTRAL);
    assert "" + raw == raw;
  }

  // ---- Unions.

  function AllBranches(values: seq<string>): seq<string> {
    if values == [] then [] else AllBranches(values[..|values| - 1]) + Split(values[|values| - 1], '|')
  }

  /** The non-empty entries, each at its first occurrence. */
  function Distinct(entries: seq<string>): seq<string> {
    if entries == [] then []
    else
      var init, e := Distinct(entries[..|entries| - 1]), entries[|entries| - 1];
      if e == "" || e in init then init else init + [e]
  }

  function Join(entries: seq<string>): string {
    if entries == [] then ""
    else if |entries| == 1 then entries[0]
    else entries[0] + (" | " + Join(entries[1..]))
  }

  function MergeTypes(values: seq<string>): string {
    Join(Distinct(AllBranches(values)))
  }

  /** The loop of mergeVueTypes. */
  method MergeVueTypes(values: seq<string>) returns (merged: string)
    ensures merged == MergeTypes(values)
  {
    var result := [];
    for n := 0 to |values|
      invariant result == Distinct(AllBranches(values[..n]))
    {
      assert values[..n + 1][..n] == values[..n];
      var branches := SplitAdminTypeTopLevel(values[n], '|');
      result := AppendDistinct(AllBranches(values[..n]), result, branches);
    }
    assert values[..|values|] == values;
    merged := Join(result);
  }

  method AppendDistinct(ghost entries: seq<string>, distinct: seq<string>, branches: seq<string>)
    returns (result: seq<string>)
    requires distinct == Distinct(entries)
    ensures result == Distinct(entries + branches)
  {
    result := distinct;
    assert entries + [] == entries;
    for m := 0 to |branches|
      invariant result == Distinct(entries + branches[..m])
    {
      assert (entries + branches[..m + 1])[..|entries| + m] == entries + branches[..m];
      if branches[m] != "" && branches[m] !in result {
        result := result + [branches[m]];
      }
    }
    assert branches[..|branches|] == branches;
  }

  // ---- How the scan composes.

  /** The state after the whole text, cuts included. */
  function ScanEnd(rest: string, separator: char, st: TypeScan): TypeScan {
    if rest == "" then st
    else
      var (next, taken, _) := Turn(st, rest, separator);
      ScanEnd(rest[taken..], separator, next)
  }

  /** Text after which reading on cannot change how the text before it was read. */
  predicate Detached(rest: string) {
    rest == "" || (rest[0] != '/' && rest[0] != '*')
  }

  predicate NoCut(text: string, separator: char) {
    FirstPiece(text, separator, NEUTRAL).1.None?
  }

  /** Scanning the text leaves nothing open. */
  predicate Clean(text: string) {
    Neutral(ScanEnd(text, '|', NEUTRAL))
  }

  lemma TurnDetached(a: string, b: string, separator: char, st: TypeScan)
    requires a != "" && Detached(b)
    ensures Turn(st, a + b, separator) == Turn(st, a, separator)
  {
  }

  /** Reading `a` and then `b`: a cut in `a` is the cut of the whole, otherwise `b` goes on
      from the state `a` ends in. */
  lemma {:induction false} FirstPieceConcat(a: string, b: string, separator: char, st: TypeScan)
    requires Detached(b)
    ensures FirstPiece(a + b, separator, st)
         == match FirstPiece(a, separator, st)
            case (raw, Some(tail)) => (raw, Some(tail + b))
            case (raw, None) =>
              var (more, tail) := FirstPiece(b, separator, ScanEnd(a, separator, st));
              (a + more, tail)
  {
    if a == "" {
      assert a + b == b;
      var (more, tail) := FirstPiece(b, separator, st);
      assert "" + more == more;
    } else {
      TurnDetached(a, b, separator, st);
      var (next, taken, cut) := Turn(st, a, separator);
      assert (a + b)[taken..] == a[taken..] + b && (a + b)[..taken] == a[..taken];
      if cut {
        assert (a + b)[..taken - 1] == a[..taken - 1];
      } else {
        FirstPieceConcat(a[taken..], b, separator, next);
        FirstPieceRejoin(a, taken, b, separator, next);
      }
    }
  }

  lemma FirstPieceRejoin(a: string, taken: nat, b: string, separator: char, next: TypeScan)
    requires taken <= |a|
    ensures var (more, tail) := FirstPiece(b, separator, ScanEnd(a[taken..], separator, next));
            a[..taken] + (a[taken..] + more) == a + more
  {
    var (more, tail) := FirstPiece(b, separator, ScanEnd(a[taken..], separator, next));
    Rejoin(a, taken);
    Reassociate(a[..taken], a[taken..], more);
  }

  // ---- Splitting a merged union gives its branches back.

  /** A raw piece, read on its own, is not cut. */
  lemma {:induction false} PieceNoCut(rest: string, separator: char, st: TypeScan)
    requires PlainSeparator(separator)
    ensures var raw := FirstPiece(rest, separator, st).0; FirstPiece(raw, separator, st) == (raw, None)
  {
    if rest != "" {
      var (next, taken, cut) := Turn(st, rest, separator);
      var (raw, tail) := FirstPiece(rest, separator, st);
      if cut {
        CutIsSingle(rest, separator, st);
        assert raw == "";
      } else {
        PieceNoCut(rest[taken..], separator, next);
        var more := FirstPiece(rest[taken..], separator, next).0;
        assert raw[taken..] == more && raw[..taken] == rest[..taken];
        if tail.Some? {
          TurnDetached(raw, [separator] + tail.value, separator, st);
          Reassociate(raw, [separator], tail.value);
        }
        assert Turn(st, raw, separator) == Turn(st, rest, separator);
      }
    }
  }

  /** A cut takes one character: comments never end in a separator. */
  lemma CutIsSingle(rest: string, separator: char, st: TypeScan)
    requires PlainSeparator(separator) && rest != "" && Turn(st, rest, separator).2
    ensures Turn(st, rest, separator).1 == 1
  {
  }

  lemma SpaceTurn(c: char, rest: string, st: TypeScan)
    requires rest != "" && rest[0] == c && IsSpace(c) && Neutral(st)
    ensures Turn(st, rest, '|') == (st, 1, false)
  {
  }

  /** Leading whitespace only lengthens the first piece. */
  lemma {:induction false} FirstPieceSkipsSpace(pad: string, rest: string, st: TypeScan)
    requires AllSpace(pad) && Neutral(st)
    ensures FirstPiece(pad + rest, '|', st)
         == var (raw, tail) := FirstPiece(rest, '|', st); (pad + raw, tail)
  {
    var (raw, tail) := FirstPiece(rest, '|', st);
    if pad == "" {
      assert pad + rest == rest && pad + raw == raw;
    } else {
      SpaceTurn(pad[0], pad + rest, st);
      assert (pad + rest)[1..] == pad[1..] + rest && (pad + rest)[..1] == pad[..1];
      FirstPieceSkipsSpace(pad[1..], rest, st);
      Rejoin(pad, 1);
      Reassociate(pad[..1], pad[1..], raw);
    }
  }

  lemma TrimmedNoCut(raw: string)
    requires NoCut(raw, '|')
    ensures NoCut(Trim(raw), '|')
  {
    var left, right := TrimSplits(raw);
    var t := Trim(raw);
    Reassociate(left, t, right);
    FirstPieceSkipsSpace(left, t + right, NEUTRAL);
    FirstPieceConcat(t, right, '|', NEUTRAL);
  }

  /** What a split yields: trimmed texts without a top-level bar. */
  predicate Branch(text: string) {
    Trimmed(text) && NoCut(text, '|')
  }

  lemma {:induction false} SplitYieldsBranches(value: string)
    ensures forall b :: b in Split(value, '|') ==> Branch(b)
    decreases |value|
  {
    var (raw, tail) := FirstPiece(value, '|', NEUTRAL);
    PieceNoCut(value, '|', NEUTRAL);
    TrimmedNoCut(raw);
    TrimEnds(raw);
    if tail.Some? {
      SplitYieldsBranches(tail.value);
    }
  }

  lemma {:induction false} AllBranchesAre(values: seq<string>)
    ensures forall b :: b in AllBranches(values) ==> Branch(b)
  {
    if values != [] {
      AllBranchesAre(values[..|values| - 1]);
      SplitYieldsBranches(values[|values| - 1]);
    }
  }

  lemma {:induction false} DistinctEntries(entries: seq<string>)
    ensures forall e :: e in Distinct(entries) <==> e in entries && e != ""
  {
    if entries != [] {
      var init, last := entries[..|entries| - 1], entries[|entries| - 1];
      DistinctEntries(init);
      assert entries == init + [last];
    }
  }

  /** Every branch but the last leaves nothing open, so each joining bar is read as one. */
  predicate Separable(branches: seq<string>) {
    forall i :: 0 <= i < |branches| - 1 ==> Clean(branches[i])
  }

  /** A bar after a closed branch is a cut; after an open one it is swallowed. */
  lemma BarAfter(st: TypeScan, rest: string)
    ensures var (raw, tail) := FirstPiece(" | " + rest, '|', st);
            if Neutral(st) then raw == " " && tail == Some(" " + rest)
            else Reachable(st) ==> |raw| >= 2 && raw[..2] == " |"
  {
    var text := " | " + rest;
    var first := Turn(st, text, '|');
    assert first.1 == 1 && !first.2;
    assert text[1..] == "| " + rest && text[..1] == " ";
    var second := Turn(first.0, text[1..], '|');
    assert second.1 == 1;
    if Neutral(st) {
      assert second.2 && text[1..][1..] == " " + rest;
      assert FirstPiece(text[1..], '|', first.0) == ("", Some(" " + rest));
    } else if Reachable(st) {
      assert !second.2;
      assert text[1..][..1] == "|";
    }
  }

  lemma {:induction false} ScanStaysReachable(text: string, st: TypeScan)
    requires Reachable(st)
    ensures Reachable(ScanEnd(text, '|', st))
  {
    if text != "" {
      var (next, taken, cut) := Turn(st, text, '|');
      ScanStaysReachable(text[taken..], next);
    }
  }

  /** Reading a joined union: the first branch comes off alone exactly when it is clean. */
  lemma SplitJoinHead(d: string, rest: string)
    requires Branch(d) && d != ""
    ensures Clean(d) ==> Split(d + (" | " + rest), '|') == [d] + Split(" " + rest, '|')
    ensures !Clean(d) ==> Split(d + (" | " + rest), '|')[0] != d
  {
    var end := ScanEnd(d, '|', NEUTRAL);
    var bar := " | " + rest;
    ScanStaysReachable(d, NEUTRAL);
    FirstPieceConcat(d, bar, '|', NEUTRAL);
    BarAfter(end, rest);
    var (raw, tail) := FirstPiece(bar, '|', end);
    assert FirstPiece(d + bar, '|', NEUTRAL) == (d + raw, tail);
    if Clean(d) {
      assert "" + d + " " == d + " ";
      TrimPadding("", d, " ");
    } else {
      TrimKeepsBar(d, raw);
    }
  }

  lemma TrimKeepsBar(d: string, raw: string)
    requires Trimmed(d) && d != "" && |raw| >= 2 && raw[..2] == " |"
    ensures Trim(d + raw) != d
  {
    var text := d + raw;
    assert text[0] == d[0] && text[|d| + 1] == raw[..2][1];
    TrimRightReaches(text, |d| + 1);
  }

  lemma {:induction false} TrimRightReaches(s: string, k: nat)
    requires k < |s| && !IsSpace(s[k])
    ensures |TrimRight(s)| > k
  {
    if IsSpace(s[|s| - 1]) {
      TrimRightReaches(s[..|s| - 1], k);
    }
  }

  lemma SplitSkipsSpace(text: string)
    requires text != "" && !IsSpace(text[0])
    ensures Split(" " + text, '|') == Split(text, '|')
  {
    FirstPieceSkipsSpace(" ", text, NEUTRAL);
    var (raw, tail) := FirstPiece(text, '|', NEUTRAL);
    TrimSkipsSpace(raw);
  }

  lemma TrimSkipsSpace(raw: string)
    ensures Trim(" " + raw) == Trim(raw)
  {
    assert (" " + raw)[1..] == raw;
  }

  /** The exact condition: splitting a joined union gives back its branches if and only if every
      branch but the last leaves nothing open. A branch that ends in a line comment does not:
      trimming took the line break that closed it. */
  lemma {:induction false} SplitJoin(branches: seq<string>)
    requires branches != [] && forall b :: b in branches ==> Branch(b) && b != ""
    ensures Split(Join(branches), '|') == branches <==> Separable(branches)
  {
    hide Clean;
    var d := branches[0];
    assert d in branches;
    if |branches| == 1 {
      TrimmedFixed(d);
      assert branches == [d];
    } else {
      var rest := branches[1..];
      assert forall b :: b in rest ==> b in branches;
      SplitJoin(rest);
      assert rest[0] in rest;
      JoinHead(rest);
      SplitJoinHead(d, Join(rest));
      SplitSkipsSpace(Join(rest));
      assert branches == [d] + rest;
      SeparableTail(d, rest);
      HeadDecides(Split(Join(branches), '|'), d, Split(Join(rest), '|'), rest, Clean(d));
    }
  }

  lemma HeadDecides(whole: seq<string>, d: string, tail: seq<string>, rest: seq<string>, clean: bool)
    requires whole != [] && (if clean then whole == [d] + tail else whole[0] != d)
    ensures whole == [d] + rest <==> clean && tail == rest
  {
    if clean {
      assert whole[1..] == tail && ([d] + rest)[1..] == rest;
    }
  }

  lemma JoinHead(branches: seq<string>)
    requires branches != [] && branches[0] != "" && Trimmed(branches[0])
    ensures Join(branches) != "" && Join(branches)[0] == branches[0][0]
  {
  }

  lemma SeparableTail(d: string, rest: seq<string>)
    requires rest != []
    ensures Separable([d] + rest) <==> Clean(d) && Separable(rest)
  {
    var all := [d] + rest;
    if Clean(d) && Separable(rest) {
      forall i | 0 <= i < |all| - 1 ensures Clean(all[i]) {
        if i > 0 { assert all[i] == rest[i - 1]; }
      }
    }
    if Separable(all) {
      assert Clean(all[0]);
      forall i | 0 <= i < |rest| - 1 ensures Clean(rest[i]) {
        assert all[i + 1] == rest[i];
      }
    }
  }

  /** The distinct branches of a list of union types. */
  function UnionBranches(values: seq<string>): seq<string> {
    Distinct(AllBranches(values))
  }

  /** Splitting a merged union returns exactly its distinct branches if and only if they are
      separable (an empty union splits into one empty text). */
  lemma SplitMergedUnion(values: seq<string>)
    ensures UnionBranches(values) != [] ==>
              (Split(MergeTypes(values), '|') == UnionBranches(values) <==> Separable(UnionBranches(values)))
    ensures UnionBranches(values) == [] ==> Split(MergeTypes(values), '|') == [""]
  {
    AllBranchesAre(values);
    DistinctEntries(AllBranches(values));
    if UnionBranches(values) != [] {
      SplitJoin(UnionBranches(values));
    }
  }

  lemma {:induction false} DistinctConcat(a: seq<string>, b: seq<string>)
    ensures Distinct(Distinct(a) + b) == Distinct(a + b)
  {
    if b == [] {
      assert a + b == a && Distinct(a) + b == Distinct(a);
      DistinctTwice(a);
    } else {
      var init, e := b[..|b| - 1], b[|b| - 1];
      assert (a + b)[..|a + b| - 1] == a + init;
      assert (Distinct(a) + b)[..|Distinct(a) + b| - 1] == Distinct(a) + init;
      DistinctConcat(a, init);
    }
  }

  lemma {:induction false} DistinctTwice(a: seq<string>)
    ensures Distinct(Distinct(a)) == Distinct(a)
  {
    if a != [] {
      var init, e := Distinct(a[..|a| - 1]), a[|a| - 1];
      DistinctTwice(a[..|a| - 1]);
      if e != "" && e !in init {
        assert (init + [e])[..|init|] == init;
      }
    }
  }

  /** Merging in two steps is merging at once, and so merging is idempotent, as long as the
      branches merged first are separable. */
  lemma MergeTwoSteps(first: seq<string>, last: seq<string>)
    requires Separable(UnionBranches(first))
    ensures MergeTypes([MergeTypes(first)] + last) == MergeTypes(first + last)
  {
    SplitMergedUnion(first);
    var d := UnionBranches(first);
    AllBranchesConcat([MergeTypes(first)], last);
    AllBranchesConcat(first, last);
    var step := Split(MergeTypes(first), '|');
    AllBranchesOne(MergeTypes(first));
    DistinctConcat(AllBranches(first), AllBranches(last));
    if d == [] {
      assert Distinct([""]) == [] by { assert [""][..0] == []; }
    } else {
      DistinctTwice(AllBranches(first));
    }
    DistinctConcat(step, AllBranches(last));
  }

  lemma {:induction false} AllBranchesConcat(a: seq<string>, b: seq<string>)
    ensures AllBranches(a + b) == AllBranches(a) + AllBranches(b)
  {
    if b == [] {
      assert a + b == a;
    } else {
      var init, last := b[..|b| - 1], b[|b| - 1];
      assert (a + b)[..|a + b| - 1] == a + init && (a + b)[|a + b| - 1] == last;
      AllBranchesConcat(a, init);
      AppendLists(AllBranches(a), AllBranches(init), Split(last, '|'));
    }
  }

  lemma AppendLists(a: seq<string>, b: seq<string>, c: seq<string>)
    ensures (a + b) + c == a + (b + c)
  {
  }

  lemma FirstPieceTurns(head: string, tail: string, separator: char, st: TypeScan, next: TypeScan)
    requires head != "" && Turn(st, head + tail, separator) == (next, |head|, false)
    ensures var (raw, rest) := FirstPiece(tail, separator, next);
            FirstPiece(head + tail, separator, st) == (head + raw, rest)
    ensures ScanEnd(head + tail, separator, st) == ScanEnd(tail, separator, next)
  {
    assert (head + tail)[|head|..] == tail && (head + tail)[..|head|] == head;
  }

  /** A comment, its line break and a second branch `B`. */
  lemma LineCommentPieces()
    ensures FirstPiece("//\n|B", '|', NEUTRAL) == ("//\n", Some("B"))
  {
    var comment := NEUTRAL.(lineComment := true);
    assert "|B"[1..] == "B" && "|B"[..0] == "";
    assert Turn(NEUTRAL, "|B", '|') == (NEUTRAL, 1, true);
    assert FirstPiece("|B", '|', NEUTRAL) == ("", Some("B"));
    FirstPieceTurns("\n", "|B", '|', comment, NEUTRAL);
    assert "\n" + "|B" == "\n|B" && "\n" + "" == "\n";
    FirstPieceTurns("//", "\n|B", '|', NEUTRAL, comment);
    assert "//" + "\n|B" == "//\n|B" && "//" + "\n" == "//\n";
  }

  /** A comment that runs to the end: whatever follows on the line is swallowed. */
  lemma OpenCommentSwallows(rest: string)
    requires forall i :: 0 <= i < |rest| ==> rest[i] != '\n'
    ensures FirstPiece("//" + rest, '|', NEUTRAL) == ("//" + rest, None)
    ensures !Clean("//")
  {
    var comment := NEUTRAL.(lineComment := true);
    CommentNoCut(rest, comment);
    FirstPieceTurns("//", rest, '|', NEUTRAL, comment);
    FirstPieceTurns("//", "", '|', NEUTRAL, comment);
    assert "//" + "" == "//";
  }

  lemma {:induction false} CommentNoCut(rest: string, st: TypeScan)
    requires st.lineComment && forall i :: 0 <= i < |rest| ==> rest[i] != '\n'
    ensures FirstPiece(rest, '|', st) == (rest, None)
  {
    if rest != "" {
      CommentNoCut(rest[1..], st);
    }
  }

  /** The line break that ends a comment is trimmed off the branch, and splitting the merged
      union no longer finds the second branch. */
  lemma LineCommentWitness()
    ensures Split("//\n|B", '|') == ["//", "B"] && !Separable(["//", "B"])
    ensures MergeTypes(["//\n|B"]) == "//" + (" | " + "B")
    ensures Split("//" + (" | " + "B"), '|') != ["//", "B"]
  {
    LineCommentPieces();
    TrimPadding("", "//", "\n");
    assert "" + "//" + "\n" == "//\n";
    SplitSingle("B");
    var d := ["//", "B"];
    assert Split("//\n|B", '|') == ["//"] + ["B"];
    assert d[0] == "//";
    OpenCommentSwallows("");
    assert "//" + "" == "//";
    SplitJoinHead("//", "B");
    MergeOfWitness("//\n|B", "//", "B");
  }

  lemma SplitSingle(text: string)
    requires text == "B"
    ensures Split(text, '|') == [text]
  {
    assert text[1..] == "" && FirstPiece("", '|', NEUTRAL) == ("", None);
    assert FirstPiece(text, '|', NEUTRAL) == (text, None);
    TrimmedFixed(text);
  }

  lemma MergeOfWitness(value: string, a: string, b: string)
    requires Split(value, '|') == [a, b] && a != b && a != "" && b != ""
    ensures MergeTypes([value]) == a + (" | " + b)
  {
    AllBranchesOne(value);
    DistinctPair(a, b);
    var d := [a, b];
    assert MergeTypes([value]) == Join(d);
    assert d[1..] == [b] && Join([b]) == b && d[0] == a;
  }

  lemma AllBranchesOne(value: string)
    ensures AllBranches([value]) == Split(value, '|')
  {
    assert [value][..0] == [];
    var step := Split(value, '|');
    assert [] + step == step;
  }

  lemma DistinctPair(a: string, b: string)
    requires a != b && a != "" && b != ""
    ensures Distinct([a, b]) == [a, b]
  {
    assert [a, b][..1] == [a] && [a][..0] == [];
    assert Distinct([a]) == [] + [a] == [a];
  }
}
