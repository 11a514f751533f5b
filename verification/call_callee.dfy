/** Which name in front of a parenthesis the call scanner takes for the callee: what it depends on
    in the pieces of the code, and when a line comment is taken for code
    (internal/admin/vue_scope_calls.go:366-404). */
module CallCallee {
  import opened AdminModel
  import opened TextScan
  import opened StaticChain
  import opened CallScanner
  import opened CallNesting

  /** The same call in a longer text. */
  function Shifted(call: Option<Call>, offset: nat): Option<Call> {
    match call
    case None => None
    case Some(c) => Some(Call(c.name, c.start + offset, c.end + offset, c.filter))
  }

  /** Neither white space nor part of a name, an optional chain or a filter: the search for a
      callee stops here. */
  predicate Stopper(c: char) {
    !JsSpace(c) && !IdentifierPart(c) && c != '?' && c != '.' && c != '|'
  }

  predicate Stopped(x: string) {
    x == "" || Stopper(x[|x| - 1])
  }

  // ---- The search in a longer text.

  lemma {:induction false} TrimEndShifts(x: string, w: string)
    requires x == "" || !JsSpace(x[|x| - 1])
    ensures TrimEnd(x + w) == |x| + TrimEnd(w)
    decreases |w|
  {
    if w != "" {
      assert (x + w)[..|x + w| - 1] == x + w[..|w| - 1];
      TrimEndShifts(x, w[..|w| - 1]);
    } else {
      assert x + w == x;
    }
  }

  lemma {:induction false} NameStartShifts(x: string, w: string)
    requires x == "" || !IdentifierPart(x[|x| - 1])
    ensures NameStart(x + w) == |x| + NameStart(w)
    decreases |w|
  {
    if w != "" {
      assert (x + w)[..|x + w| - 1] == x + w[..|w| - 1];
      NameStartShifts(x, w[..|w| - 1]);
    } else {
      assert x + w == x;
    }
  }

  lemma NameEndShifts(x: string, w: string)
    requires Stopped(x)
    ensures NameEnd(x + w) == |x| + NameEnd(w)
  {
    hide TrimEnd;
    TrimEndShifts(x, w);
    var m, text := TrimEnd(w), x + w;
    if x != "" {
      assert text[|x| - 1] == x[|x| - 1];
    }
    if m >= 2 {
      assert text[..|x| + m - 2] == x + w[..m - 2];
      assert text[|x| + m - 2] == w[m - 2] && text[|x| + m - 1] == w[m - 1];
      TrimEndShifts(x, w[..m - 2]);
    }
  }

  /** Behind a stopper the callee is found in the text since. */
  lemma CallShifts(x: string, w: string)
    requires Stopped(x)
    ensures CallBefore(x + w) == Shifted(CallBefore(w), |x|)
  {
    hide TrimEnd, NameStart, NameEnd, IdentifierStart;
    NameEndShifts(x, w);
    var e := NameEnd(w);
    assert (x + w)[..|x| + e] == x + w[..e];
    NameStartShifts(x, w[..e]);
    var s := NameStart(w[..e]);
    assert (x + w)[..|x| + s] == x + w[..s] && (x + w)[|x| + s..|x| + e] == w[s..e];
    TrimEndShifts(x, w[..s]);
  }

  // ---- The callee on pieces.

  /** Where the run of plain characters at the end of the code begins. */
  function PlainFrom(code: seq<Piece>): (k: nat)
    ensures k <= |code|
  {
    if code != [] && code[|code| - 1].Plain? then PlainFrom(code[..|code| - 1]) else |code|
  }

  /** That run is all the callee depends on. */
  function Callee(offset: nat, code: seq<Piece>): Option<Call> {
    var k := PlainFrom(code);
    Shifted(CallBefore(PrintAll(code[k..])), offset + |PrintAll(code[..k])|)
  }

  /** A line comment stands directly in front of the run. */
  predicate Commented(code: seq<Piece>) {
    PlainFrom(code) > 0 && code[PlainFrom(code) - 1].LineComment?
  }

  lemma {:induction false} PlainFromEnds(code: seq<Piece>)
    ensures PlainFrom(code) > 0 ==> !code[PlainFrom(code) - 1].Plain?
  {
    if code != [] && code[|code| - 1].Plain? {
      PlainFromEnds(code[..|code| - 1]);
    }
  }

  lemma {:induction false} PrintConcat(a: seq<Piece>, b: seq<Piece>)
    ensures PrintAll(a + b) == PrintAll(a) + PrintAll(b)
    decreases |a|
  {
    if a == [] {
      assert a + b == b;
    } else {
      assert (a + b)[1..] == a[1..] + b;
      PrintConcat(a[1..], b);
    }
  }

  /** Every piece but a plain character and a line comment ends in a stopper. */
  lemma PieceStops(piece: Piece, next: char)
    requires WellFormed(piece, next) && !piece.Plain? && !piece.LineComment?
    ensures Print(piece) != "" && Stopped(Print(piece))
  {
    var text := Print(piece);
    match piece
    case BlockComment(body) => assert text[|text| - 1] == '/';
    case Group(open, inner) => assert text[|text| - 1] == CloserOf(open);
    case Quoted(quote, body) => assert text[|text| - 1] == quote;
    case Template(_, _) => assert text[|text| - 1] == '`';
    case _ =>
  }

  lemma {:induction false} WellFormedAt(code: seq<Piece>, next: char, i: nat) returns (behind: char)
    requires AllWellFormed(code, next) && i < |code|
    ensures WellFormed(code[i], behind)
    decreases |code|
  {
    if i == 0 {
      behind := FirstChar(PrintAll(code[1..]), next);
    } else {
      behind := WellFormedAt(code[1..], next, i - 1);
    }
  }

  lemma PrintEnds(code: seq<Piece>, piece: Piece)
    ensures PrintAll(code + [piece]) == PrintAll(code) + Print(piece)
  {
    PrintConcat(code, [piece]);
    assert [piece][1..] == [];
    assert Print(piece) + "" == Print(piece);
  }

  lemma NothingPrinted()
    ensures PrintAll([]) == ""
  {
  }

  /** The callee in front of a parenthesis is a matter of the plain characters directly in front of
      it, unless a line comment stands before them. */
  lemma CalleeIsPlain(before: string, code: seq<Piece>, next: char)
    requires Stopped(before) && AllWellFormed(code, next) && !Commented(code)
    ensures CallBefore(before + PrintAll(code)) == Callee(|before|, code)
  {
    hide PrintAll, AllWellFormed, WellFormed, PlainFrom, CallBefore, Print, Shifted, Stopper;
    var k := PlainFrom(code);
    var front, run := PrintAll(code[..k]), PrintAll(code[k..]);
    assert code == code[..k] + code[k..];
    PrintConcat(code[..k], code[k..]);
    assert before + (front + run) == before + front + run;
    if k > 0 {
      PlainFromEnds(code);
      var behind := WellFormedAt(code, next, k - 1);
      PieceStops(code[k - 1], behind);
      PrintEnds(code[..k - 1], code[k - 1]);
      assert code[..k] == code[..k - 1] + [code[k - 1]];
    } else {
      assert code[..0] == [];
      NothingPrinted();
    }
    CallShifts(before + front, run);
  }

  /** InnermostCall with every callee read off the pieces. */
  function InnermostNamed(offset: nat, levels: seq<Level>, last: seq<Piece>): Option<Frame>
    decreases |levels|
  {
    if levels == [] then None
    else
      var start := offset + |PrintAll(levels[0].code)|;
      var inner := InnermostNamed(start + |PrintOpening(levels[0].opening)|, levels[1..], last);
      if inner.Some? then inner
      else
        var call := if levels[0].opening == Delimiter('(') then Callee(offset, levels[0].code) else None;
        if call.Some? then Some(Frame('(', call, Commas(FirstCode(levels[1..], last)))) else None
  }

  predicate Uncommented(levels: seq<Level>) {
    forall i :: 0 <= i < |levels| && levels[i].opening == Delimiter('(') ==> !Commented(levels[i].code)
  }

  lemma OpeningStops(before: string, level: Level)
    requires OpeningWellFormed(level.opening)
    ensures Stopped(AfterLevel(before, level))
  {
    var opening := PrintOpening(level.opening);
    assert opening[|opening| - 1] == if level.opening.Delimiter? then level.opening.open else '{';
    assert AfterLevel(before, level)[|AfterLevel(before, level)| - 1] == opening[|opening| - 1];
  }

  /** Without a line comment in front of a parenthesis, the call the scanner finds is the innermost
      one whose plain characters directly in front of its parenthesis end in a name. */
  lemma {:induction false} InnermostIsNamed(before: string, levels: seq<Level>, last: seq<Piece>, next: char)
    requires Stopped(before) && LevelsWellFormed(levels, last, next) && Uncommented(levels)
    ensures InnermostCall(before, levels, last) == InnermostNamed(|before|, levels, last)
    decreases |levels|
  {
    hide PrintAll, CallBefore, Callee, AllWellFormed, PrintOpening, Commented, Stopped;
    if levels != [] {
      OpeningStops(before, levels[0]);
      assert forall i :: 0 <= i < |levels[1..]| ==> levels[1..][i] == levels[i + 1];
      InnermostIsNamed(AfterLevel(before, levels[0]), levels[1..], last, next);
      if levels[0].opening == Delimiter('(') {
        CalleeIsPlain(before, levels[0].code, OpeningChar(levels[0].opening));
      }
    }
  }

  // ---- Line comments.

  /** Behind the line break that ends a comment, the search comes to an end on its own: a name is
      found with something in front of it, or something that is no name. */
  predicate Decided(v: string) {
    var e := NameEnd(v);
    var s := NameStart(v[..e]);
    e > 0 && (s == e || !IdentifierStart(v[s]) || TrimEnd(v[..s]) > 0)
  }

  /** What follows a line comment is read on its own, whatever the comment says. */
  ghost predicate IgnoresComment(w: string) {
    forall body: string :: '\n' !in body ==> ReadsAlone(body, w)
  }

  predicate ReadsAlone(body: string, w: string) {
    CallBefore("//" + body + ("\n" + w)) == Shifted(CallBefore("\n" + w), |body| + 2)
  }

  /** A line comment does not matter exactly when the search is decided before it is reached. */
  lemma CommentIgnoredIff(w: string)
    ensures IgnoresComment(w) <==> Decided("\n" + w)
  {
    var v := "\n" + w;
    if Decided(v) {
      forall body: string | '\n' !in body
        ensures ReadsAlone(body, w)
      {
        DecidedAlone("//" + body, v);
      }
    } else if NameEnd(v) == 0 {
      CommentRead("f", v);
      NothingFound(v);
      assert !ReadsAlone("f", w);
    } else {
      CommentRead("|", v);
      FilterRead(v);
      assert !ReadsAlone("|", w);
    }
  }

  /** White space is searched through. */
  lemma {:induction false} TrimEndThrough(x: string, w: string)
    ensures TrimEnd(x + w) == if TrimEnd(w) > 0 then |x| + TrimEnd(w) else TrimEnd(x)
    decreases |w|
  {
    if w != "" && JsSpace(w[|w| - 1]) {
      assert (x + w)[..|x + w| - 1] == x + w[..|w| - 1];
      TrimEndThrough(x, w[..|w| - 1]);
    } else if w == "" {
      assert x + w == x;
    }
  }

  lemma NameStartBehindBreak(x: string, v: string)
    requires v != "" && v[0] == '\n'
    ensures NameStart(x + v) == |x| + NameStart(v) && NameStart(v) >= 1
  {
    var head := x + [v[0]];
    assert x + v == head + v[1..] && v == [v[0]] + v[1..];
    NameStartShifts(head, v[1..]);
    NameStartShifts([v[0]], v[1..]);
  }

  /** The line break is trimmed, so that nothing is found at it. */
  lemma BreakTrimmed(v: string)
    requires v == "" || v[0] == '\n'
    ensures TrimEnd(v) == 0 || TrimEnd(v) >= 2
    decreases |v|
  {
    if v != "" && JsSpace(v[|v| - 1]) {
      BreakTrimmed(v[..|v| - 1]);
    }
  }

  lemma NameEndThrough(x: string, v: string)
    requires v != "" && v[0] == '\n' && NameEnd(v) > 0
    ensures NameEnd(x + v) == |x| + NameEnd(v)
  {
    BreakTrimmed(v);
    TrimEndThrough(x, v);
    var m := TrimEnd(v);
    if m >= 2 {
      assert (x + v)[..|x| + m - 2] == x + v[..m - 2];
      TrimEndThrough(x, v[..m - 2]);
    }
  }

  lemma DecidedAlone(x: string, v: string)
    requires v != "" && v[0] == '\n' && Decided(v)
    ensures CallBefore(x + v) == Shifted(CallBefore(v), |x|)
  {
    hide TrimEnd, NameStart, IdentifierStart;
    NameEndThrough(x, v);
    var e := NameEnd(v);
    assert (x + v)[..|x| + e] == x + v[..e];
    NameStartBehindBreak(x, v[..e]);
    var s := NameStart(v[..e]);
    assert (x + v)[..|x| + s] == x + v[..s] && (x + v)[|x| + s..|x| + e] == v[s..e];
    TrimEndThrough(x, v[..s]);
    BreakTrimmed(v[..s]);
  }

  /** What is read when the search goes on into a comment of one character. */
  lemma CommentRead(body: string, v: string)
    requires |body| == 1 && !JsSpace(body[0]) && v != "" && v[0] == '\n'
    ensures var x := "//" + body;
            && (NameEnd(v) == 0 && TrimEnd(v) == 0 ==> NameEnd(x + v) == 3)
            && (NameEnd(v) == 0 && TrimEnd(v) > 0 ==> NameEnd(x + v) == 3)
  {
    var x := "//" + body;
    assert x[2] == body[0] && x[1] == '/';
    BreakTrimmed(v);
    TrimEndThrough(x, v);
    var m := TrimEnd(v);
    if m >= 2 {
      assert (x + v)[..|x| + m - 2] == x + v[..m - 2];
      TrimEndThrough(x, v[..m - 2]);
    }
  }

  lemma NothingFound(v: string)
    requires v != "" && v[0] == '\n' && NameEnd(v) == 0
    ensures CallBefore(v).None? && CallBefore("//" + "f" + v) == Some(Call("f", 2, 3, false))
  {
    var x := "//" + "f";
    CommentRead("f", v);
    assert v[..0] == "";
    assert (x + v)[..3] == x && x[..2] == "//";
    assert NameStart(x) == 2 by {
      assert NameStart("//") == 2;
    }
    assert (x + v)[..2] == "//" && TrimEnd("//") == 2 && (x + v)[2..3] == "f";
  }

  lemma FilterRead(v: string)
    requires v != "" && v[0] == '\n' && NameEnd(v) > 0 && !Decided(v)
    ensures CallBefore(v).Some? && !CallBefore(v).value.filter
    ensures CallBefore("//" + "|" + v).Some? && CallBefore("//" + "|" + v).value.filter
  {
    var x := "//" + "|";
    NameEndThrough(x, v);
    var e := NameEnd(v);
    assert (x + v)[..|x| + e] == x + v[..e];
    NameStartBehindBreak(x, v[..e]);
    var s := NameStart(v[..e]);
    assert (x + v)[..|x| + s] == x + v[..s];
    TrimEndThrough(x, v[..s]);
    assert TrimEnd(x) == 3;
    assert (x + v)[2] == '|' && (x + v)[1] == '/';
  }

  /** The last word of a line comment is taken for the callee. */
  lemma CommentWitness()
    ensures CallBefore("//" + "f" + "\n") == Some(Call("f", 2, 3, false))
  {
    assert NameEnd("\n") == 0 by {
      assert "\n"[..0] == "";
    }
    NothingFound("\n");
  }

  // ---- Calls that are read back.

  predicate AllJsSpace(s: string) {
    forall c :: c in s ==> JsSpace(c)
  }

  predicate IsName(name: string) {
    name != "" && IdentifierStart(name[0]) && forall i :: 0 <= i < |name| ==> IdentifierPart(name[i])
  }

  lemma {:induction false} TrimEndOver(s: string, gap: string)
    requires AllJsSpace(gap) && (s != "" ==> !JsSpace(s[|s| - 1]))
    ensures TrimEnd(s + gap) == |s|
    decreases |gap|
  {
    if gap == "" {
      assert s + gap == s;
    } else {
      assert gap[|gap| - 1] in gap && (forall c :: c in gap[..|gap| - 1] ==> c in gap);
      assert (s + gap)[..|s + gap| - 1] == s + gap[..|gap| - 1];
      TrimEndOver(s, gap[..|gap| - 1]);
    }
  }

  lemma {:induction false} NameStartWhole(name: string)
    requires forall i :: 0 <= i < |name| ==> IdentifierPart(name[i])
    ensures NameStart(name) == 0
  {
    if name != "" {
      NameStartWhole(name[..|name| - 1]);
    }
  }

  predicate PipedAt(before: string, head: string, gap: string) {
    before == head + "|" + gap && AllJsSpace(gap) && (head != "" ==> head[|head| - 1] != '|')
  }

  /** A single bar stands in front, as it does in front of a filter. */
  ghost predicate Piped(before: string) {
    exists head, gap :: PipedAt(before, head, gap)
  }

  lemma {:induction false} TrimEndSplits(s: string)
    ensures AllJsSpace(s[TrimEnd(s)..]) && (TrimEnd(s) > 0 ==> !JsSpace(s[TrimEnd(s) - 1]))
  {
    if s != "" && JsSpace(s[|s| - 1]) {
      TrimEndSplits(s[..|s| - 1]);
      assert s[TrimEnd(s)..] == s[..|s| - 1][TrimEnd(s)..] + [s[|s| - 1]];
    }
  }

  lemma PipedIff(before: string)
    ensures Piped(before) <==>
            var p := TrimEnd(before); p > 0 && before[p - 1] == '|' && !(p >= 2 && before[p - 2] == '|')
  {
    var p := TrimEnd(before);
    TrimEndSplits(before);
    if p > 0 && before[p - 1] == '|' && !(p >= 2 && before[p - 2] == '|') {
      assert PipedAt(before, before[..p - 1], before[p..]);
    }
    if head, gap :| PipedAt(before, head, gap) {
      TrimEndOver(head + "|", gap);
    }
  }

  function Between(gap: string, optional: bool, more: string): string {
    gap + ((if optional then "?." else "") + more)
  }

  lemma EndReads(s: string, gap: string, optional: bool, more: string)
    requires s != "" && IdentifierPart(s[|s| - 1]) && AllJsSpace(gap) && AllJsSpace(more)
    ensures NameEnd(s + Between(gap, optional, more)) == |s|
  {
    hide TrimEnd;
    var text := s + Between(gap, optional, more);
    TrimEndOver(s, gap);
    if optional {
      var head := s + gap + "?.";
      assert text == head + more;
      TrimEndOver(head, more);
      assert text[..|head| - 2] == s + gap && text[|head| - 2] == head[|head| - 2] && text[|head| - 1] == head[|head| - 1];
    } else {
      assert text == s + (gap + more);
      TrimEndOver(s, gap + more);
      assert text[|s| - 1] == s[|s| - 1];
    }
  }

  /** A name in front of a parenthesis is found, with white space and an optional call between them,
      and taken for a filter exactly behind a single bar. */
  lemma CalleeReads(before: string, name: string, gap: string, optional: bool, more: string)
    requires IsName(name) && (before != "" ==> !IdentifierPart(before[|before| - 1])) && AllJsSpace(gap) && AllJsSpace(more)
    ensures CallBefore(before + name + Between(gap, optional, more))
            == Some(Call(name, |before|, |before| + |name|, Piped(before)))
  {
    hide TrimEnd, NameStart, NameEnd, Between, Piped;
    var s := before + name;
    var text := s + Between(gap, optional, more);
    EndReads(s, gap, optional, more);
    assert text[..|s|] == s && text[..|before|] == before && text[|before|..|s|] == name;
    NameStartShifts(before, name);
    NameStartWhole(name);
    PipedIff(before);
  }
}
