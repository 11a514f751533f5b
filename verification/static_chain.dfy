/** Member chains such as `.items[0]?.label(arg)`: vueStaticExpressionSegments and
    staticExpressionPath (internal/admin/component_type_inference.go:1212-1292,
    static_member.go:116-138). */
module StaticChain {
  import opened AdminModel
  import opened TextScan

  datatype Segment = Segment(name: string, called: bool, optional: bool, indexed: bool, arguments: string,
                             indexExpression: string)

  /** A chain as far as it goes and the text after it, or a malformed one. */
  datatype Parsed = Malformed | Parsed(segments: seq<Segment>, rest: string)

  predicate JsSpace(c: char) {
    c == ' ' || c == '\t' || c == '\r' || c == '\n'
  }

  function SkipSpace(s: string): (r: string)
    ensures |r| <= |s|
  {
    if s != "" && JsSpace(s[0]) then SkipSpace(s[1..]) else s
  }

  /** Text after a delimited part that starts `s`, or None. */
  function Close(s: string, open: char, close: char): (r: Option<(string, string)>)
    ensures r.Some? ==> |r.value.1| < |s|
  {
    var i := MatchingDelimiter(s, 0, open, close);
    if i < 1 then None else Some((s[1..i], s[i + 1..]))
  }

  function Prepend(segment: Segment, parsed: Parsed): Parsed {
    if parsed.Malformed? then Malformed else parsed.(segments := [segment] + parsed.segments)
  }

  /** The text after an optional non-null assertion. */
  function AfterName(s: string): (r: string)
    ensures |r| <= |s|
  {
    var t := SkipSpace(s);
    SkipSpace(if t != "" && t[0] == '!' then t[1..] else t)
  }

  /** The loop of vueStaticExpressionSegments on the text that remains; `any` says whether it
      has collected a segment. */
  function ReadChain(text: string, any: bool): (r: Parsed)
    ensures r.Parsed? ==> |r.rest| <= |text|
    decreases |text|, 1
  {
    var s := SkipSpace(text);
    if s == "" then Parsed([], "")
    else if "?.[" <= s || s[0] == '[' then
      var optional := "?.[" <= s;
      Indexed(if optional then s[2..] else s, optional)
    else if "?." <= s || s[0] == '.' then
      Named(SkipSpace(if "?." <= s then s[2..] else s[1..]), "?." <= s)
    else if any then Parsed([], s)
    else Malformed
  }

  function Indexed(s: string, optional: bool): (r: Parsed)
    ensures r.Parsed? ==> |r.rest| <= |s|
    decreases |s|, 0
  {
    match Close(s, '[', ']')
    case None => Malformed
    case Some((inner, rest)) => Prepend(Segment("", false, optional, true, "", Trim(inner)), ReadChain(rest, true))
  }

  /** A name after its dot, with its call if there is one. */
  function Named(s: string, optional: bool): (r: Parsed)
    ensures r.Parsed? ==> |r.rest| <= |s|
    decreases |s|, 0
  {
    if s == "" || !IdentifierStart(s[0]) then Malformed
    else
      var n := IdentifierRun(s);
      Called(AfterName(s[n..]), s[..n], optional)
  }

  function Called(t: string, name: string, optional: bool): (r: Parsed)
    ensures r.Parsed? ==> |r.rest| <= |t|
    decreases |t|, 2
  {
    if "?.(" <= t || (t != "" && t[0] == '(') then
      match Close(if "?.(" <= t then t[2..] else t, '(', ')')
      case None => Malformed
      case Some((arguments, rest)) =>
        Prepend(Segment(name, true, optional || "?.(" <= t, false, arguments, ""), ReadChain(rest, true))
    else Prepend(Segment(name, false, optional, false, "", ""), ReadChain(t, true))
  }

  /** staticExpressionPath */
  function StaticExpressionPath(path: string): (seq<Segment>, bool) {
    var p := Trim(path);
    if p == "" then ([], true)
    else
      var parsed := ReadChain("." + p, false);
      if parsed.Malformed? then ([], false) else (parsed.segments, parsed.rest == "")
  }

  // ---- The loops.

  method SkipSpaces(value: string, start: nat) returns (cursor: nat)
    requires start <= |value|
    ensures start <= cursor <= |value| && value[cursor..] == SkipSpace(value[start..])
    ensures cursor < |value| ==> !JsSpace(value[cursor])
  {
    cursor := start;
    while cursor < |value| && JsSpace(value[cursor])
      invariant start <= cursor <= |value| && SkipSpace(value[cursor..]) == SkipSpace(value[start..])
    {
      assert value[cursor..][1..] == value[cursor + 1..];
      cursor := cursor + 1;
    }
  }

  function Join(done: seq<Segment>, rest: Parsed): Parsed {
    if rest.Malformed? then Malformed else rest.(segments := done + rest.segments)
  }

  lemma JoinPrepend(done: seq<Segment>, segment: Segment, rest: Parsed)
    ensures Join(done, Prepend(segment, rest)) == Join(done + [segment], rest)
  {
    if rest.Parsed? {
      assert done + ([segment] + rest.segments) == done + [segment] + rest.segments;
    }
  }

  /** vueStaticExpressionSegments */
  method StaticExpressionSegments(value: string, start: nat) returns (result: seq<Segment>, cursor: nat, ok: bool)
    requires start <= |value|
    ensures cursor <= |value|
    ensures ReadChain(value[start..], false) == if ok then Parsed(result, value[cursor..]) else Malformed
  {
    ghost var goal := ReadChain(value[start..], false);
    result, cursor, ok := [], start, true;
    var more := true;
    while more
      invariant start <= cursor <= |value|
      invariant more ==> goal == Join(result, ReadChain(value[cursor..], |result| > 0))
      invariant !more ==> goal == if ok then Parsed(result, value[cursor..]) else Malformed
      decreases more, |value| - cursor
    {
      var segment;
      segment, cursor, ok, more := NextSegment(value, cursor, |result| > 0);
      if more {
        JoinPrepend(result, segment, ReadChain(value[cursor..], true));
        result := result + [segment];
      }
    }
  }

  /** One turn of the loop: a segment and where to go on, or the end of the chain. */
  method NextSegment(value: string, start: nat, any: bool) returns (segment: Segment, cursor: nat, ok: bool, more: bool)
    requires start <= |value|
    ensures start <= cursor <= |value| && (more ==> start < cursor)
    ensures ReadChain(value[start..], any)
         == if more then Prepend(segment, ReadChain(value[cursor..], true))
            else if ok then Parsed([], value[cursor..]) else Malformed
  {
    segment := Segment("", false, false, false, "", "");
    cursor := SkipSpaces(value, start);
    ghost var s := value[cursor..];
    if cursor >= |value| {
      return segment, cursor, true, false;
    }
    if "?.[" <= value[cursor..] || value[cursor] == '[' {
      var optional := "?.[" <= value[cursor..];
      cursor := if optional then cursor + 2 else cursor;
      assert (if optional then s[2..] else s) == value[cursor..];
      segment, cursor, ok := IndexedSegment(value, cursor, optional);
      more := ok;
    } else if "?." <= value[cursor..] || value[cursor] == '.' {
      var optional := "?." <= value[cursor..];
      cursor := cursor + if optional then 2 else 1;
      assert (if optional then s[2..] else s[1..]) == value[cursor..];
      cursor := SkipSpaces(value, cursor);
      segment, cursor, ok := NamedSegment(value, cursor, optional);
      more := ok;
    } else {
      return segment, cursor, any, false;
    }
  }

  method IndexedSegment(value: string, start: nat, optional: bool) returns (segment: Segment, cursor: nat, ok: bool)
    requires start < |value| && value[start] == '['
    ensures start <= cursor <= |value| && (ok ==> start < cursor)
    ensures Indexed(value[start..], optional) == if ok then Prepend(segment, ReadChain(value[cursor..], true)) else Malformed
  {
    CloseAt(value, start, '[', ']');
    var close := MatchingSlotDelimiter(value, start, '[', ']');
    if close < 0 {
      return Segment("", false, optional, true, "", ""), start, false;
    }
    return Segment("", false, optional, true, "", Trim(value[start + 1..close])), close + 1, true;
  }

  lemma CloseAt(value: string, cursor: nat, open: char, close: char)
    requires cursor < |value| && value[cursor] == open && open != close
    ensures var i := MatchingDelimiter(value, cursor, open, close);
            Close(value[cursor..], open, close)
            == if i < 0 then None else Some((value[cursor + 1..i], value[i + 1..]))
    ensures MatchingDelimiter(value, cursor, open, close) != cursor
  {
    var i := MatchingDelimiter(value, cursor, open, close);
    assert value[cursor..][0..] == value[cursor..];
    assert MatchingDelimiter(value[cursor..], 0, open, close) == if i < 0 then -1 else i - cursor;
    if i >= 0 {
      assert value[i] == close;
      assert value[cursor..][1..i - cursor] == value[cursor + 1..i];
      assert value[cursor..][i - cursor + 1..] == value[i + 1..];
    }
  }

  lemma NamedUnfolds(s: string, optional: bool)
    ensures Named(s, optional)
         == if s == "" || !IdentifierStart(s[0]) then Malformed
            else Called(AfterName(s[IdentifierRun(s)..]), s[..IdentifierRun(s)], optional)
  {
  }

  /** The name part of one loop turn. */
  method NamedSegment(value: string, start: nat, optional: bool) returns (segment: Segment, cursor: nat, ok: bool)
    requires start <= |value|
    ensures start <= cursor <= |value| && (ok ==> start < cursor)
    ensures Named(value[start..], optional) == if ok then Prepend(segment, ReadChain(value[cursor..], true)) else Malformed
  {
    hide Named, Called, ReadChain, Prepend, AfterName;
    NamedUnfolds(value[start..], optional);
    segment, cursor := Segment("", false, optional, false, "", ""), start;
    if start >= |value| || !IdentifierStart(value[start]) {
      return segment, cursor, false;
    }
    cursor := IdentifierEnd(value, start);
    var name := value[start..cursor];
    assert value[start..][cursor - start..] == value[cursor..] && value[start..][..cursor - start] == name;
    cursor := SkipAssertion(value, cursor);
    segment, cursor, ok := CalledSegment(value, cursor, name, optional);
  }

  method SkipAssertion(value: string, start: nat) returns (cursor: nat)
    requires start <= |value|
    ensures start <= cursor <= |value| && value[cursor..] == AfterName(value[start..])
  {
    cursor := SkipSpaces(value, start);
    if cursor < |value| && value[cursor] == '!' {
      assert value[cursor..][1..] == value[cursor + 1..];
      cursor := cursor + 1;
    }
    cursor := SkipSpaces(value, cursor);
  }

  method CalledSegment(value: string, start: nat, name: string, optional: bool)
    returns (segment: Segment, cursor: nat, ok: bool)
    requires start <= |value|
    ensures start <= cursor <= |value|
    ensures Called(value[start..], name, optional) == if ok then Prepend(segment, ReadChain(value[cursor..], true)) else Malformed
  {
    hide ReadChain;
    segment, cursor := Segment(name, false, optional, false, "", ""), start;
    ghost var t := value[start..];
    if "?.(" <= value[cursor..] || (cursor < |value| && value[cursor] == '(') {
      var chained := "?.(" <= value[cursor..];
      var callOpen := if chained then cursor + 2 else cursor;
      assert (if chained then t[2..] else t) == value[callOpen..];
      CloseAt(value, callOpen, '(', ')');
      var close := MatchingSlotDelimiter(value, callOpen, '(', ')');
      if close < 0 {
        return segment, cursor, false;
      }
      return Segment(name, true, optional || chained, false, value[callOpen + 1..close], ""), close + 1, true;
    }
    return segment, cursor, true;
  }

  // ---- Printing chains.

  datatype Invocation = Invocation(arguments: string, chained: bool)

  /** A member, with a non-null assertion and a plain or optional call behind its name, or an index. */
  datatype Step =
    | Dotted(name: string, optional: bool, asserted: bool, call: Option<Invocation>)
    | Indexing(inner: string, optional: bool)

  predicate IsIdentifier(s: string) {
    s != "" && IdentifierStart(s[0]) && forall i :: 0 <= i < |s| ==> IdentifierPart(s[i])
  }

  /** Names are identifiers; arguments and indices are balanced. */
  predicate Printable(step: Step) {
    match step
    case Dotted(name, _, _, call) => IsIdentifier(name) && (call.Some? ==> Enclosed(call.value.arguments, '(', ')'))
    case Indexing(inner, _) => Enclosed(inner, '[', ']')
  }

  function InvocationText(call: Option<Invocation>): string {
    match call
    case None => ""
    case Some(Invocation(arguments, chained)) => (if chained then "?." else "") + ("(" + arguments + ")")
  }

  function StepText(step: Step): string {
    match step
    case Dotted(name, optional, asserted, call) =>
      (if optional then "?." else ".") + (name + ((if asserted then "!" else "") + InvocationText(call)))
    case Indexing(inner, optional) => (if optional then "?." else "") + ("[" + inner + "]")
  }

  function ChainText(steps: seq<Step>): string {
    if steps == [] then "" else StepText(steps[0]) + ChainText(steps[1..])
  }

  function StepSegment(step: Step): Segment {
    match step
    case Dotted(name, optional, _, None) => Segment(name, false, optional, false, "", "")
    case Dotted(name, optional, _, Some(call)) => Segment(name, true, optional || call.chained, false, call.arguments, "")
    case Indexing(inner, optional) => Segment("", false, optional, true, "", Trim(inner))
  }

  function Segments(steps: seq<Step>): seq<Segment> {
    seq(|steps|, i requires 0 <= i < |steps| => StepSegment(steps[i]))
  }

  /** What may follow a step: nothing, a dot, a bracket, or an optional link that is no call. */
  predicate Follows(tail: string) {
    tail == "" || tail[0] == '.' || tail[0] == '[' || ("?." <= tail && !("?.(" <= tail))
  }

  lemma ChainTextFollows(steps: seq<Step>)
    requires forall i :: 0 <= i < |steps| ==> Printable(steps[i])
    ensures Follows(ChainText(steps))
  {
    if steps != [] {
      var text := ChainText(steps);
      match steps[0]
      case Dotted(name, optional, _, _) =>
        if optional {
          assert text[0] == '?' && text[1] == '.' && text[2] == name[0];
        } else {
          assert text[0] == '.';
        }
      case Indexing(inner, optional) =>
        if optional {
          assert text[0] == '?' && text[1] == '.' && text[2] == '[';
        } else {
          assert text[0] == '[';
        }
    }
  }

  lemma {:induction false} IdentifierStops(name: string, tail: string)
    requires forall i :: 0 <= i < |name| ==> IdentifierPart(name[i])
    requires tail == "" || !IdentifierPart(tail[0])
    ensures IdentifierRun(name + tail) == |name|
  {
    if name == "" {
      assert name + tail == tail;
    } else {
      assert (name + tail)[1..] == name[1..] + tail;
      IdentifierStops(name[1..], tail);
    }
  }

  lemma CloseEnclosed(inner: string, tail: string, open: char, close: char)
    requires open != close && !IsQuote(open) && !IsQuote(close) && Enclosed(inner, open, close)
    ensures Close([open] + inner + [close] + tail, open, close) == Some((inner, tail))
  {
    var text := [open] + inner + [close] + tail;
    MatchingIffEnclosed(inner, tail, open, close);
    assert text[1..|inner| + 1] == inner && text[|inner| + 2..] == tail;
  }

  /** A printed index is read back as its segment. */
  lemma IndexReads(inner: string, optional: bool, tail: string, any: bool)
    requires Enclosed(inner, '[', ']')
    ensures ReadChain(StepText(Indexing(inner, optional)) + tail, any) == Prepend(StepSegment(Indexing(inner, optional)), ReadChain(tail, true))
  {
    hide Prepend;
    var bracketed := "[" + inner + "]" + tail;
    var text := StepText(Indexing(inner, optional)) + tail;
    CloseEnclosed(inner, tail, '[', ']');
    if optional {
      assert text == "?." + bracketed && text[2..] == bracketed;
      assert text[0] == '?' && text[1] == '.' && text[2] == '[';
    } else {
      assert text == bracketed && text[0] == '[';
    }
  }

  lemma CallReads(name: string, optional: bool, call: Invocation, tail: string)
    requires Enclosed(call.arguments, '(', ')')
    ensures Called(InvocationText(Some(call)) + tail, name, optional)
         == Prepend(Segment(name, true, optional || call.chained, false, call.arguments, ""), ReadChain(tail, true))
  {
    var parenthesised := "(" + call.arguments + ")" + tail;
    var text := InvocationText(Some(call)) + tail;
    CloseEnclosed(call.arguments, tail, '(', ')');
    if call.chained {
      assert text == "?." + parenthesised && text[2..] == parenthesised;
      assert text[0] == '?' && text[1] == '.' && text[2] == '(';
    } else {
      assert text == parenthesised && text[0] == '(';
    }
  }

  /** Nothing that could belong to a name or an assertion. */
  predicate Starts(rest: string) {
    rest == "" || (!JsSpace(rest[0]) && rest[0] != '!' && !IdentifierPart(rest[0]))
  }

  lemma InvocationStarts(call: Option<Invocation>, tail: string)
    requires Follows(tail)
    ensures Starts(InvocationText(call) + tail)
  {
    if call.Some? {
      var text := InvocationText(call);
      assert text[0] == '(' || text[0] == '?';
      assert (text + tail)[0] == text[0];
    } else {
      assert InvocationText(call) + tail == tail;
    }
  }

  /** The assertion behind a name is skipped, and nothing else. */
  lemma AssertionSkipped(asserted: bool, rest: string)
    requires Starts(rest)
    ensures var text := (if asserted then "!" else "") + rest;
            AfterName(text) == rest && (text == "" || !IdentifierPart(text[0]))
  {
    if asserted {
      assert ("!" + rest)[1..] == rest;
    } else {
      assert "" + rest == rest;
    }
  }

  lemma NameReads(name: string, optional: bool, asserted: bool, call: Option<Invocation>, tail: string)
    requires Printable(Dotted(name, optional, asserted, call)) && Follows(tail)
    ensures Named(name + ((if asserted then "!" else "") + InvocationText(call)) + tail, optional)
         == Prepend(StepSegment(Dotted(name, optional, asserted, call)), ReadChain(tail, true))
  {
    hide AfterName, InvocationText, ReadChain, Close, Starts;
    var invoked := InvocationText(call) + tail;
    var rest := (if asserted then "!" else "") + invoked;
    var text := name + rest;
    Reassociate(if asserted then "!" else "", InvocationText(call), tail);
    Reassociate(name, (if asserted then "!" else "") + InvocationText(call), tail);
    InvocationStarts(call, tail);
    AssertionSkipped(asserted, invoked);
    IdentifierStops(name, rest);
    assert text[..|name|] == name && text[|name|..] == rest && text[0] == name[0];
    if call.Some? {
      CallReads(name, optional, call.value, tail);
    } else {
      NoCallReads(name, optional, tail);
    }
  }

  lemma NoCallReads(name: string, optional: bool, tail: string)
    requires Follows(tail)
    ensures Called(InvocationText(None) + tail, name, optional) == Prepend(Segment(name, false, optional, false, "", ""), ReadChain(tail, true))
  {
    assert InvocationText(None) + tail == tail;
  }

  lemma DotLeads(named: string, optional: bool, any: bool)
    requires named != "" && IdentifierStart(named[0])
    ensures ReadChain((if optional then "?." else ".") + named, any) == Named(named, optional)
  {
    hide Trim, Close;
    var text := (if optional then "?." else ".") + named;
    if optional {
      assert text[0] == '?' && text[1] == '.' && text[2] == named[0] && text[2..] == named;
    } else {
      assert text[0] == '.' && text[1..] == named;
    }
  }

  /** A printed member is read back as its segment. */
  lemma MemberReads(name: string, optional: bool, asserted: bool, call: Option<Invocation>, tail: string, any: bool)
    requires Printable(Dotted(name, optional, asserted, call)) && Follows(tail)
    ensures ReadChain(StepText(Dotted(name, optional, asserted, call)) + tail, any)
         == Prepend(StepSegment(Dotted(name, optional, asserted, call)), ReadChain(tail, true))
  {
    hide ReadChain, Named, StepSegment, InvocationText;
    var dot, called := if optional then "?." else ".", name + ((if asserted then "!" else "") + InvocationText(call));
    Reassociate(dot, called, tail);
    assert (called + tail)[0] == name[0];
    DotLeads(called + tail, optional, any);
    NameReads(name, optional, asserted, call, tail);
  }

  /** Round trip: a printed chain, with assertions, calls and indices, parses to its own segments
      and is consumed to the end. */
  lemma {:induction false} ChainRoundTrip(steps: seq<Step>, any: bool)
    requires forall i :: 0 <= i < |steps| ==> Printable(steps[i])
    ensures ReadChain(ChainText(steps), any) == Parsed(Segments(steps), "")
  {
    hide IdentifierStart, Inside, Indexed, SkipSpace, StepText, StepSegment;
    if steps != [] {
      var tail := ChainText(steps[1..]);
      assert forall i :: 0 <= i < |steps[1..]| ==> steps[1..][i] == steps[i + 1];
      ChainTextFollows(steps[1..]);
      ChainRoundTrip(steps[1..], true);
      assert Printable(steps[0]);
      match steps[0]
      case Dotted(name, optional, asserted, call) => MemberReads(name, optional, asserted, call, tail, any);
      case Indexing(inner, optional) => IndexReads(inner, optional, tail, any);
      assert Segments(steps) == [StepSegment(steps[0])] + Segments(steps[1..]);
    }
  }

  /** An index is found again exactly when its text is balanced: otherwise the closing bracket
      the printer wrote is not the one the scanner stops at. */
  lemma IndexReadsIff(inner: string, tail: string)
    ensures Close("[" + inner + "]" + tail, '[', ']') == Some((inner, tail)) <==> Enclosed(inner, '[', ']')
  {
    var text := "[" + inner + "]" + tail;
    MatchingIffEnclosed(inner, tail, '[', ']');
    if Enclosed(inner, '[', ']') {
      CloseEnclosed(inner, tail, '[', ']');
    }
  }

  // ---- Dot joins.

  function DotJoin(names: seq<string>): string {
    if names == [] then "" else if |names| == 1 then names[0] else names[0] + "." + DotJoin(names[1..])
  }

  function Plain(names: seq<string>): (steps: seq<Step>)
    ensures |steps| == |names|
  {
    seq(|names|, i requires 0 <= i < |names| => Dotted(names[i], false, false, None))
  }

  lemma {:induction false} DotJoinIsChain(names: seq<string>)
    requires names != []
    ensures "." + DotJoin(names) == ChainText(Plain(names))
  {
    assert Plain(names) == [Dotted(names[0], false, false, None)] + Plain(names[1..]);
    assert Plain(names)[1..] == Plain(names[1..]);
    if |names| > 1 {
      DotJoinIsChain(names[1..]);
      assert "." + (names[0] + "." + DotJoin(names[1..])) == "." + (names[0] + ("" + "")) + ("." + DotJoin(names[1..]));
    } else {
      assert ChainText(Plain(names[1..])) == "";
      assert "." + names[0] == "." + (names[0] + ("" + "")) + "";
    }
  }

  lemma {:induction false} DotJoinEnds(names: seq<string>)
    requires names != [] && forall i :: 0 <= i < |names| ==> IsIdentifier(names[i])
    ensures var s := DotJoin(names); s != "" && IdentifierPart(s[0]) && IdentifierPart(s[|s| - 1])
  {
    assert IsIdentifier(names[0]);
    if |names| > 1 {
      assert forall i :: 0 <= i < |names[1..]| ==> names[1..][i] == names[i + 1];
      DotJoinEnds(names[1..]);
    }
  }

  lemma PlainReads(names: seq<string>)
    requires names != [] && forall i :: 0 <= i < |names| ==> IsIdentifier(names[i])
    ensures ReadChain("." + DotJoin(names), false) == Parsed(Segments(Plain(names)), "")
  {
    DotJoinIsChain(names);
    assert forall i :: 0 <= i < |names| ==> Printable(Plain(names)[i]);
    ChainRoundTrip(Plain(names), false);
  }

  lemma PathOfChain(path: string, segments: seq<Segment>)
    requires path != "" && Trim(path) == path && ReadChain("." + path, false) == Parsed(segments, "")
    ensures StaticExpressionPath(path) == (segments, true)
  {
  }

  lemma PlainSegments(names: seq<string>)
    ensures var segments := Segments(Plain(names));
            |segments| == |names|
            && forall i :: 0 <= i < |names| ==> segments[i].name == names[i] && !segments[i].called && !segments[i].indexed
  {
  }

  lemma DotJoinTrimmed(names: seq<string>)
    requires names != [] && forall i :: 0 <= i < |names| ==> IsIdentifier(names[i])
    ensures DotJoin(names) != "" && Trim(DotJoin(names)) == DotJoin(names)
  {
    DotJoinEnds(names);
    TrimmedFixed(DotJoin(names));
  }

  /** The dot-join of any identifiers parses back to them, and to nothing else. */
  lemma PathRoundTrip(names: seq<string>)
    requires forall i :: 0 <= i < |names| ==> IsIdentifier(names[i])
    ensures var (segments, ok) := StaticExpressionPath(DotJoin(names));
            ok && segments == Segments(Plain(names))
            && (forall i :: 0 <= i < |names| ==> segments[i].name == names[i] && !segments[i].called && !segments[i].indexed)
  {
    hide Segments, Plain, Trim, ReadChain, IsIdentifier, StaticExpressionPath;
    PlainSegments(names);
    if names != [] {
      DotJoinTrimmed(names);
      PlainReads(names);
      PathOfChain(DotJoin(names), Segments(Plain(names)));
    } else {
      assert StaticExpressionPath("") == ([], true) by { EmptyPath(); }
    }
  }

  lemma EmptyPath()
    ensures StaticExpressionPath("") == ([], true)
  {
  }
}
