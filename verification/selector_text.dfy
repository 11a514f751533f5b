/** How a selector expression is taken apart: parentheses, static strings, the conditional and
    the `??` and `||` operators (internal/admin/dynamic_component.go:175-239,
    component_type_inference.go:1056-1103, value_type.go:752-757). */
module SelectorText {
  import opened AdminModel
  import opened CallableType
  import opened TextScan
  import opened StaticChain

  /** unwrapVueExpressionParentheses */
  function Unwrap(value: string): (r: string)
    decreases |value|
  {
    var t := Trim(value);
    TrimShrinks(value);
    if Parenthesised(t) then Unwrap(t[1..|t| - 1]) else t
  }

  method UnwrapParentheses(value: string) returns (r: string)
    ensures r == Unwrap(value)
  {
    r := Trim(value);
    TrimIdempotent(value);
    while |r| >= 2 && r[0] == '(' && MatchingDelimiter(r, 0, '(', ')') == |r| - 1
      invariant Unwrap(r) == Unwrap(value) && Trim(r) == r
      decreases |r|
    {
      TrimShrinks(r[1..|r| - 1]);
      UnwrapTrims(r[1..|r| - 1]);
      TrimIdempotent(r[1..|r| - 1]);
      r := Trim(r[1..|r| - 1]);
    }
  }

  lemma UnwrapTrims(s: string)
    ensures Unwrap(Trim(s)) == Unwrap(s)
  {
    TrimIdempotent(s);
  }

  lemma {:induction false} UnwrapShrinks(s: string)
    ensures |Unwrap(s)| <= |s|
    decreases |s|
  {
    TrimShrinks(s);
    if Parenthesised(Trim(s)) {
      UnwrapShrinks(Trim(s)[1..|Trim(s)| - 1]);
    }
  }

  function TrimSuffix(s: string, c: char): string {
    if s != "" && s[|s| - 1] == c then s[..|s| - 1] else s
  }

  /** trimVueSourceExpression: one trailing comma, then one trailing semicolon. */
  function TrimSource(s: string): string {
    Trim(TrimSuffix(TrimSuffix(Trim(s), ','), ';'))
  }

  /** The text the analysis looks at. */
  function Core(s: string): string {
    Unwrap(TrimSource(s))
  }

  lemma CoreShrinks(s: string)
    ensures |Core(s)| <= |s|
  {
    TrimShrinks(s);
    TrimShrinks(TrimSuffix(TrimSuffix(Trim(s), ','), ';'));
    UnwrapShrinks(TrimSource(s));
  }

  // ---- Static strings.

  /** A literal with the name between its quotes: no escape, no inner quote, no interpolation. */
  function StaticString(s: string): Option<string> {
    if |s| >= 2 && IsQuote(s[0]) && s[|s| - 1] == s[0] && PlainName(s[1..|s| - 1], s[0]) then Some(s[1..|s| - 1]) else None
  }

  predicate PlainName(name: string, quote: char) {
    name != "" && '\\' !in name && quote !in name && (quote == '`' ==> !Interpolates(name))
  }

  predicate Interpolates(name: string) {
    exists i :: 0 <= i < |name| && InterpolatesAt(name, i)
  }

  predicate InterpolatesAt(name: string, i: int) {
    0 <= i && i + 1 < |name| && name[i] == '$' && name[i + 1] == '{'
  }

  /** staticDynamicComponentString */
  method StaticDynamicComponentString(value: string) returns (name: string, start: int, end: int, found: bool)
    ensures found == StaticString(value).Some?
    ensures found ==> StaticString(value) == Some(name) && (start, end) == (1, |value| - 1)
  {
    if |value| < 2 || !IsQuote(value[0]) || value[|value| - 1] != value[0] {
      return "", 0, 0, false;
    }
    var quote, escaped := value[0], false;
    name := value[1..|value| - 1];
    var index := 1;
    while index < |value| - 1
      invariant 1 <= index <= |value| - 1
      invariant escaped ==> '\\' in name
      invariant '\\' !in name ==> forall k :: 0 <= k < index - 1 ==> name[k] != quote && !(quote == '`' && InterpolatesAt(name, k))
    {
      assert value[index] == name[index - 1];
      if escaped {
        escaped := false;
      } else if value[index] == '\\' {
        escaped := true;
      } else if value[index] == quote
                || (quote == '`' && value[index] == '$' && index + 1 < |value| - 1 && value[index + 1] == '{') {
        assert quote in name || InterpolatesAt(name, index - 1);
        return "", 0, 0, false;
      }
      index := index + 1;
    }
    if name == "" || '\\' in name {
      return "", 0, 0, false;
    }
    return name, 1, |value| - 1, true;
  }

  // ---- The conditional.

  datatype Branches = Branches(question: nat, colon: nat)

  /** A question mark that belongs to `??` or `?.`. */
  predicate OperatorQuestion(value: string, i: nat)
    requires i < |value|
  {
    (i + 1 < |value| && (value[i + 1] == '?' || value[i + 1] == '.')) || (i > 0 && value[i - 1] == '?')
  }

  /** The scan from position i: where its question mark was (or -1) and how many inner
      conditionals are open. */
  function SplitFrom(value: string, i: nat, st: SlotScan, question: int, nested: nat): (r: Option<Branches>)
    requires -1 <= question < i || (i == 0 && question == -1)
    ensures r.Some? ==> r.value.question < r.value.colon < |value|
    decreases |value| - i
  {
    if i >= |value| then None
    else if st.TopLevel() && value[i] == '?' && !OperatorQuestion(value, i) then
      SplitFrom(value, i + 1, st.Consume('?'), if question < 0 then i else question, if question < 0 then nested else nested + 1)
    else if st.TopLevel() && value[i] == ':' && question >= 0 then
      if nested > 0 then SplitFrom(value, i + 1, st.Consume(':'), question, nested - 1) else Some(Branches(question, i))
    else SplitFrom(value, i + 1, st.Consume(value[i]), question, nested)
  }

  function SplitConditional(value: string): (r: Option<Branches>)
    ensures r.Some? ==> r.value.question < r.value.colon < |value|
  {
    SplitFrom(value, 0, NEUTRAL_SLOT, -1, 0)
  }

  /** splitDynamicComponentConditional */
  method SplitDynamicComponentConditional(value: string)
    returns (trueStart: nat, trueEnd: nat, falseStart: nat, falseEnd: nat, found: bool)
    ensures found == SplitConditional(value).Some?
    ensures found ==> var split := SplitConditional(value).value;
                      (trueStart, trueEnd, falseStart, falseEnd) == (split.question + 1, split.colon, split.colon + 1, |value|)
  {
    var st, question, nested: nat := NEUTRAL_SLOT, -1, 0;
    var index := 0;
    while index < |value|
      invariant 0 <= index <= |value| && (-1 <= question < index || (index == 0 && question == -1))
      invariant SplitConditional(value) == SplitFrom(value, index, st, question, nested)
    {
      if st.TopLevel() {
        if value[index] == '?' {
          if !OperatorQuestion(value, index) {
            if question < 0 {
              question := index;
            } else {
              nested := nested + 1;
            }
          }
        } else if value[index] == ':' && question >= 0 {
          if nested > 0 {
            nested := nested - 1;
          } else {
            return question + 1, index, index + 1, |value|, true;
          }
        }
      }
      st := st.Consume(value[index]);
      index := index + 1;
    }
    return 0, 0, 0, 0, false;
  }

  // ---- Binary operators.

  /** Offset of the first top-level occurrence of the operator at or after i, or -1. */
  function OperatorFrom(value: string, i: nat, st: SlotScan, operator: string): (r: int)
    requires i <= |value|
    ensures r == -1 || (i <= r && r + |operator| <= |value|)
    decreases |value| - i
  {
    if i + |operator| > |value| || i >= |value| then -1
    else if st.TopLevel() && operator <= value[i..] then i
    else OperatorFrom(value, i + 1, st.Consume(value[i]), operator)
  }

  /** splitVueTopLevelOperator */
  function SplitOperator(value: string, operator: string): Option<(string, string)> {
    var i := OperatorFrom(value, 0, NEUTRAL_SLOT, operator);
    if i < 0 then None
    else
      var left, right := Trim(value[..i]), Trim(value[i + |operator|..]);
      if left == "" || right == "" then None else Some((left, right))
  }

  method IndexTopLevelOperator(value: string, operator: string) returns (found: int)
    requires operator != ""
    ensures found == OperatorFrom(value, 0, NEUTRAL_SLOT, operator)
  {
    var st := NEUTRAL_SLOT;
    var index := 0;
    while index + |operator| <= |value|
      invariant 0 <= index <= |value|
      invariant OperatorFrom(value, 0, NEUTRAL_SLOT, operator) == OperatorFrom(value, index, st, operator)
    {
      if st.TopLevel() && operator <= value[index..] {
        return index;
      }
      st := st.Consume(value[index]);
      index := index + 1;
    }
    return -1;
  }

  method SplitTopLevelOperator(value: string, operator: string) returns (left: string, right: string, split: bool)
    requires operator != ""
    ensures SplitOperator(value, operator) == if split then Some((left, right)) else None
  {
    var index := IndexTopLevelOperator(value, operator);
    if index < 0 {
      return "", "", false;
    }
    left, right := Trim(value[..index]), Trim(value[index + |operator|..]);
    return left, right, left != "" && right != "";
  }

  // ---- References.

  /** vueStaticThisExpression */
  function ThisExpression(s: string): Option<seq<Segment>> {
    var t := Trim(s);
    if !("this" <= t) || (|t| > 4 && IdentifierPart(t[4])) then None
    else
      var parsed := ReadChain(t[4..], false);
      if parsed.Parsed? && Trim(parsed.rest) == "" then Some(parsed.segments) else None
  }

  /** vueStaticTemplateExpression */
  function TemplateExpression(s: string): Option<seq<Segment>> {
    var t := Trim(s);
    var split := SplitOperator(t, "??");
    var e := StripParentheses(if split.Some? && Unwrap(split.value.1) == "[]" then split.value.0 else t);
    if e == "" then None
    else if "this." <= e then ThisExpression(e)
    else if !IdentifierStart(e[0]) then None
    else ThisExpression("this." + e)
  }

  /** A single member access, called or not: what the selector follows. */
  function SingleReference(s: string): Option<Segment> {
    match TemplateExpression(s)
    case None => None
    case Some(path) => if |path| == 1 && !path[0].indexed then Some(path[0]) else None
  }
}
