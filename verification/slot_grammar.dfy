/** The delimiter scans over nested text, by a grammar of that text: brackets of three kinds that
    close in order, literals with escapes, and anything else
    (internal/admin/slot_scope.go:893-961, component_type_inference.go:1081-1103). */
module SlotGrammar {
  import opened AdminModel
  import opened TextScan
  import opened SelectorText

  datatype Item = Plain(c: char) | Literal(quote: char, body: string) | Nested(open: char, inner: seq<Item>)

  function Closer(open: char): char {
    if open == '(' then ')' else if open == '[' then ']' else '}'
  }

  function Print(item: Item): string
    decreases item, 0
  {
    match item
    case Plain(c) => [c]
    case Literal(quote, body) => [quote] + (body + [quote])
    case Nested(open, inner) => [open] + (PrintAll(inner) + [Closer(open)])
  }

  function PrintAll(items: seq<Item>): string
    decreases items, 1
  {
    if items == [] then "" else Print(items[0]) + PrintAll(items[1..])
  }

  predicate Bracket(c: char) {
    c == '(' || c == ')' || c == '[' || c == ']' || c == '{' || c == '}'
  }

  /** Every quote of its own kind is escaped, and no escape is cut off. */
  predicate Escaped(body: string, quote: char)
    decreases |body|
  {
    body != "" ==>
      if body[0] == '\\' then |body| >= 2 && Escaped(body[2..], quote) else body[0] != quote && Escaped(body[1..], quote)
  }

  predicate WellFormed(item: Item)
    decreases item, 0
  {
    match item
    case Plain(c) => !Bracket(c) && !IsQuote(c)
    case Literal(quote, body) => IsQuote(quote) && Escaped(body, quote)
    case Nested(open, inner) => (open == '(' || open == '[' || open == '{') && AllWellFormed(inner)
  }

  predicate AllWellFormed(items: seq<Item>)
    decreases items, 1
  {
    items != [] ==> WellFormed(items[0]) && AllWellFormed(items[1..])
  }

  // ---- The scan for one kind of delimiter.

  /** The text is passed over from inside the pair, and leaves the scan as it was. */
  ghost predicate Passed(text: string, open: char, close: char, st: MatchScan) {
    forall rest :: Inside(text + rest, open, close, st) == Inside(rest, open, close, st)
  }

  lemma PassedThen(a: string, b: string, open: char, close: char, st: MatchScan)
    requires Passed(a, open, close, st) && Passed(b, open, close, st)
    ensures Passed(a + b, open, close, st)
  {
    forall rest ensures Inside(a + b + rest, open, close, st) == Inside(rest, open, close, st) {
      Reassociate(a, b, rest);
      assert Inside(a + (b + rest), open, close, st) == Inside(b + rest, open, close, st);
    }
  }

  predicate Pair(open: char, close: char) {
    (open == '(' || open == '[' || open == '{') && close == Closer(open)
  }

  lemma {:induction false} BodyPassed(body: string, quote: char, open: char, close: char, st: MatchScan, rest: string)
    requires IsQuote(quote) && Escaped(body, quote) && Pair(open, close) && !st.quoted && st.quote == '\0' && !st.escaped
    ensures Inside(body + [quote] + rest, open, close, st.(quoted := true, quote := quote)) == Inside(rest, open, close, st)
    decreases |body|
  {
    var text, within := body + [quote] + rest, st.(quoted := true, quote := quote);
    if body == "" {
      assert text[0] == quote && text[1..] == rest;
    } else if body[0] == '\\' {
      assert text[0] == '\\' && text[1..][0] == body[1] && text[1..][1..] == body[2..] + [quote] + rest;
      BodyPassed(body[2..], quote, open, close, st, rest);
    } else {
      assert text[0] == body[0] && text[1..] == body[1..] + [quote] + rest;
      BodyPassed(body[1..], quote, open, close, st, rest);
    }
  }

  /** Outside literals, inside the pair at some depth. */
  predicate Within(st: MatchScan) {
    !st.quoted && st.quote == '\0' && !st.escaped && st.depth >= 1
  }

  lemma {:induction false} ItemPassed(item: Item, open: char, close: char, st: MatchScan)
    requires WellFormed(item) && Pair(open, close) && Within(st)
    ensures Passed(Print(item), open, close, st)
    decreases item, 0
  {
    forall rest ensures Inside(Print(item) + rest, open, close, st) == Inside(rest, open, close, st) {
      var text := Print(item) + rest;
      match item
      case Plain(c) => assert text[0] == c && text[1..] == rest;
      case Literal(quote, body) =>
        assert text[0] == quote && text[1..] == body + [quote] + rest;
        BodyPassed(body, quote, open, close, st, rest);
      case Nested(o, inner) =>
        var deeper := if o == open then st.(depth := st.depth + 1) else st;
        var tail := [Closer(o)] + rest;
        assert text[0] == o && text[1..] == PrintAll(inner) + tail;
        ItemsPassed(inner, open, close, deeper);
        assert Inside(PrintAll(inner) + tail, open, close, deeper) == Inside(tail, open, close, deeper);
        assert tail[0] == Closer(o) && tail[1..] == rest;
    }
  }

  lemma {:induction false} ItemsPassed(items: seq<Item>, open: char, close: char, st: MatchScan)
    requires AllWellFormed(items) && Pair(open, close) && Within(st)
    ensures Passed(PrintAll(items), open, close, st)
    decreases items, 1
  {
    if items == [] {
      forall rest: string ensures "" + rest == rest {}
    } else {
      ItemPassed(items[0], open, close, st);
      ItemsPassed(items[1..], open, close, st);
      PassedThen(Print(items[0]), PrintAll(items[1..]), open, close, st);
    }
  }

  /** The delimiter found for an opening one is the one written for it, whatever nested text stands
      between them and whatever follows. */
  lemma NestedIsMatched(open: char, items: seq<Item>, tail: string)
    requires (open == '(' || open == '[' || open == '{') && AllWellFormed(items)
    ensures MatchingDelimiter([open] + PrintAll(items) + [Closer(open)] + tail, 0, open, Closer(open)) == |PrintAll(items)| + 1
  {
    var close := Closer(open);
    ItemsPassed(items, open, close, ENTERED);
    assert PrintAll(items) + "" == PrintAll(items);
    assert Inside(PrintAll(items) + "", open, close, ENTERED) == Inside("", open, close, ENTERED);
    MatchingIffEnclosed(PrintAll(items), tail, open, close);
  }

  // ---- The scan for the top level.

  /** The text leaves the scan as it was. */
  predicate Level(st: SlotScan) {
    !st.quoted && st.quote == '\0' && !st.escaped
  }

  function Deeper(st: SlotScan, open: char): SlotScan {
    if open == '(' then st.(parens := st.parens + 1)
    else if open == '[' then st.(brackets := st.brackets + 1)
    else st.(braces := st.braces + 1)
  }

  lemma ConsumeOne(st: SlotScan, c: char)
    ensures st.ConsumeAll([c]) == st.Consume(c)
  {
    assert [c][..0] == "";
  }

  lemma {:induction false} BodyLevels(body: string, quote: char, st: SlotScan)
    requires IsQuote(quote) && Escaped(body, quote) && Level(st)
    ensures st.(quoted := true, quote := quote).ConsumeAll(body + [quote]) == st
    decreases |body|
  {
    hide SlotScan.ConsumeAll;
    var within := st.(quoted := true, quote := quote);
    var text := body + [quote];
    ConsumeFront(within, text);
    if body == "" {
      ConsumeNothing(st);
      assert text[1..] == "";
    } else if body[0] == '\\' {
      assert text[1..][0] == body[1] && text[1..][1..] == body[2..] + [quote];
      ConsumeFront(within.(escaped := true), text[1..]);
      BodyLevels(body[2..], quote, st);
    } else {
      assert text[1..] == body[1..] + [quote];
      BodyLevels(body[1..], quote, st);
    }
  }

  lemma ConsumeNothing(st: SlotScan)
    ensures st.ConsumeAll("") == st
  {
  }

  lemma ConsumeFront(st: SlotScan, text: string)
    requires text != ""
    ensures st.ConsumeAll(text) == st.Consume(text[0]).ConsumeAll(text[1..])
  {
    assert text == [text[0]] + text[1..];
    ConsumeAllConcat(st, [text[0]], text[1..]);
    ConsumeOne(st, text[0]);
  }

  lemma {:induction false} ItemLevels(item: Item, st: SlotScan)
    requires WellFormed(item) && Level(st)
    ensures st.ConsumeAll(Print(item)) == st
    decreases item, 0
  {
    match item
    case Plain(c) => ConsumeOne(st, c);
    case Literal(quote, body) =>
      ConsumeAllConcat(st, [quote], body + [quote]);
      ConsumeOne(st, quote);
      BodyLevels(body, quote, st);
    case Nested(open, inner) =>
      ConsumeAllConcat(st, [open], PrintAll(inner) + [Closer(open)]);
      ConsumeOne(st, open);
      ItemsLevel(inner, Deeper(st, open));
      ConsumeAllConcat(Deeper(st, open), PrintAll(inner), [Closer(open)]);
      ConsumeOne(Deeper(st, open), Closer(open));
  }

  /** Nested text leaves the depths as they were. */
  lemma {:induction false} ItemsLevel(items: seq<Item>, st: SlotScan)
    requires AllWellFormed(items) && Level(st)
    ensures st.ConsumeAll(PrintAll(items)) == st
    decreases items, 1
  {
    if items != [] {
      ItemLevels(items[0], st);
      ItemsLevel(items[1..], st);
      ConsumeAllConcat(st, Print(items[0]), PrintAll(items[1..]));
    }
  }

  // ---- Operators.

  predicate HasAt(value: string, i: nat, text: string) {
    i + |text| <= |value| && value[i..i + |text|] == text
  }

  lemma HasAtThen(value: string, i: nat, a: string, b: string)
    requires HasAt(value, i, a + b)
    ensures HasAt(value, i, a) && HasAt(value, i + |a|, b)
  {
    assert value[i..i + |a + b|][..|a|] == a && value[i..i + |a + b|][|a|..] == b;
  }

  lemma Step(value: string, i: nat, st: SlotScan, operator: string)
    requires operator != "" && i + |operator| <= |value| && (st.TopLevel() ==> !(operator <= value[i..]))
    ensures OperatorFrom(value, i, st, operator) == OperatorFrom(value, i + 1, st.Consume(value[i]), operator)
  {
  }

  /** The quoted part of a literal. */
  lemma {:induction false} BodySkipped(value: string, i: nat, st: SlotScan, operator: string, body: string, quote: char)
    requires IsQuote(quote) && Escaped(body, quote) && Level(st) && operator != ""
    requires HasAt(value, i, body + [quote]) && i + |body| + 1 + |operator| <= |value|
    ensures OperatorFrom(value, i, st.(quoted := true, quote := quote), operator) == OperatorFrom(value, i + |body| + 1, st, operator)
    decreases |body|
  {
    hide OperatorFrom;
    var within := st.(quoted := true, quote := quote);
    Step(value, i, within, operator);
    if body == "" {
      HasAtThen(value, i, "", [quote]);
      assert value[i] == value[i..i + 1][0];
    } else {
      assert body + [quote] == [body[0]] + (body[1..] + [quote]);
      HasAtThen(value, i, [body[0]], body[1..] + [quote]);
      assert value[i] == value[i..i + 1][0];
      if body[0] == '\\' {
        assert body[1..] + [quote] == [body[1]] + (body[2..] + [quote]);
        HasAtThen(value, i + 1, [body[1]], body[2..] + [quote]);
        Step(value, i + 1, within.(escaped := true), operator);
        BodySkipped(value, i + 2, st, operator, body[2..], quote);
      } else {
        BodySkipped(value, i + 1, st, operator, body[1..], quote);
      }
    }
  }

  /** Outside literals and inside some bracket, or at the top with no operator here. */
  predicate Passes(value: string, i: nat, st: SlotScan, operator: string) {
    && Level(st) && st.braces >= 0 && st.brackets >= 0 && st.parens >= 0
    && (st.TopLevel() ==> i <= |value| && !(operator <= value[i..]))
  }

  lemma {:induction false} ItemSkipped(value: string, i: nat, st: SlotScan, operator: string, item: Item)
    requires WellFormed(item) && operator != "" && Passes(value, i, st, operator)
    requires HasAt(value, i, Print(item)) && i + |Print(item)| + |operator| <= |value|
    ensures OperatorFrom(value, i, st, operator) == OperatorFrom(value, i + |Print(item)|, st, operator)
    decreases item, 0
  {
    hide Escaped, OperatorFrom;
    assert value[i] == value[i..i + |Print(item)|][0];
    Step(value, i, st, operator);
    match item
    case Plain(c) =>
    case Literal(quote, body) =>
      HasAtThen(value, i, [quote], body + [quote]);
      BodySkipped(value, i + 1, st, operator, body, quote);
    case Nested(open, inner) =>
      HasAtThen(value, i, [open], PrintAll(inner) + [Closer(open)]);
      HasAtThen(value, i + 1, PrintAll(inner), [Closer(open)]);
      var deeper, close := Deeper(st, open), i + 1 + |PrintAll(inner)|;
      ItemsBuried(value, i + 1, deeper, operator, inner);
      Step(value, close, deeper, operator);
      assert value[close] == value[close..close + 1][0];
  }

  /** Inside a bracket no operator is found. */
  lemma {:induction false} ItemsBuried(value: string, i: nat, st: SlotScan, operator: string, items: seq<Item>)
    requires AllWellFormed(items) && operator != "" && Passes(value, i, st, operator) && !st.TopLevel()
    requires HasAt(value, i, PrintAll(items)) && i + |PrintAll(items)| + |operator| <= |value|
    ensures OperatorFrom(value, i, st, operator) == OperatorFrom(value, i + |PrintAll(items)|, st, operator)
    decreases items, 1
  {
    if items != [] {
      HasAtThen(value, i, Print(items[0]), PrintAll(items[1..]));
      ItemSkipped(value, i, st, operator, items[0]);
      ItemsBuried(value, i + |Print(items[0])|, st, operator, items[1..]);
    }
  }

  lemma OperatorHere(value: string, i: nat, operator: string)
    requires i <= |value| && operator != "" && operator <= value[i..]
    ensures OperatorFrom(value, i, NEUTRAL_SLOT, operator) == i
  {
  }

  /** The operator stands at no boundary of the items, with what follows them. */
  predicate Apart(items: seq<Item>, operator: string, rest: string)
    decreases |items|
  {
    items != [] ==> !(operator <= PrintAll(items) + rest) && Apart(items[1..], operator, rest)
  }

  lemma {:induction false} ItemsSkipped(value: string, i: nat, operator: string, items: seq<Item>, rest: string)
    requires AllWellFormed(items) && operator != "" && operator <= rest && Apart(items, operator, rest)
    requires i <= |value| && value[i..] == PrintAll(items) + rest
    ensures OperatorFrom(value, i, NEUTRAL_SLOT, operator) == i + |PrintAll(items)|
    decreases |items|
  {
    hide HasAt, OperatorFrom;
    if items == [] {
      OperatorHere(value, i, operator);
      assert value[i..] == rest;
    } else {
      var one, tail := Print(items[0]), PrintAll(items[1..]) + rest;
      Reassociate(one, PrintAll(items[1..]), rest);
      SplitAt(value, i, one, tail);
      ItemSkipped(value, i, NEUTRAL_SLOT, operator, items[0]);
      ItemsSkipped(value, i + |one|, operator, items[1..], rest);
    }
  }

  lemma SplitAt(value: string, i: nat, a: string, b: string)
    requires i <= |value| && value[i..] == a + b
    ensures HasAt(value, i, a) && i + |a| + |b| == |value| && value[i + |a|..] == b
  {
    assert value[i..][..|a|] == a && value[i..][|a|..] == b;
  }

  /** The operator found is the first at the boundaries of nested text: what stands inside brackets
      and literals is passed over. */
  lemma OperatorBehind(items: seq<Item>, operator: string, rest: string)
    requires AllWellFormed(items) && operator != "" && Apart(items, operator, operator + rest)
    ensures OperatorFrom(PrintAll(items) + (operator + rest), 0, NEUTRAL_SLOT, operator) == |PrintAll(items)|
    ensures var left, right := Trim(PrintAll(items)), Trim(rest);
            SplitOperator(PrintAll(items) + (operator + rest), operator) == if left == "" || right == "" then None else Some((left, right))
  {
    hide Apart;
    var value := PrintAll(items) + (operator + rest);
    assert value[0..] == value;
    ItemsSkipped(value, 0, operator, items, operator + rest);
    assert value[..|PrintAll(items)|] == PrintAll(items);
    assert value[|PrintAll(items)| + |operator|..] == rest;
  }
}
