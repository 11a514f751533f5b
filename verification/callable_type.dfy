/** Parentheses around a whole text, and the return type a callable type names
    (internal/admin/value_type.go:782-808, type_index.go:1233-1239), and filling one in
    (component_type_inference.go:265-280). */
module CallableType {
  import opened TextScan
  import opened StaticChain

  lemma TrimShrinks(s: string)
    ensures |Trim(s)| <= |s|
  {
    TrimLeftSuffix(s);
    TrimRightPrefix(TrimLeft(s));
  }

  /** The whole text is one parenthesised expression. */
  predicate Parenthesised(t: string) {
    |t| >= 2 && t[0] == '(' && MatchingDelimiter(t, 0, '(', ')') == |t| - 1
  }

  /** trimAdminTypeParentheses */
  function StripParentheses(t: string): string
    decreases |t|
  {
    if Parenthesised(t) then
      TrimShrinks(t[1..|t| - 1]);
      StripParentheses(Trim(t[1..|t| - 1]))
    else t
  }

  /** VueCallableReturnType */
  function CallableReturnType(value: string): string {
    var t := StripParentheses(Trim(value));
    if t == "" || t[0] != '(' then ""
    else
      var close := MatchingDelimiter(t, 0, '(', ')');
      if close < 0 then ""
      else
        var rest := SkipSpace(t[close + 1..]);
        if "=>" <= rest then Trim(rest[2..]) else if ":" <= rest then Trim(rest[1..]) else ""
  }

  /** vueCallableWithReturnType */
  function CallableWithReturnType(signature: string, returnType: string): string {
    var value := Trim(signature);
    if value == "" then "() => " + returnType
    else if value[0] != '(' then value
    else
      var close := MatchingDelimiter(value, 0, '(', ')');
      if close < 0 then value else Trim(value[..close + 1]) + (" => " + returnType)
  }

  lemma {:induction false} SkipsSpaces(pad: string, s: string)
    requires (forall c :: c in pad ==> JsSpace(c)) && (s != "" ==> !JsSpace(s[0]))
    ensures SkipSpace(pad + s) == s
  {
    if pad == "" {
      assert pad + s == s;
    } else {
      assert pad[0] in pad && (forall c :: c in pad[1..] ==> c in pad);
      assert (pad + s)[1..] == pad[1..] + s;
      SkipsSpaces(pad[1..], s);
    }
  }

  /** A parameter list followed by an arrow, or by a colon, and a type: the type is what it returns. */
  lemma ReturnRead(inner: string, pad: string, mark: string, result: string)
    requires Enclosed(inner, '(', ')') && (forall c :: c in pad ==> JsSpace(c)) && (mark == "=>" || mark == ":")
    ensures CallableReturnType("(" + inner + ")" + pad + mark + result) == Trim(result)
  {
    hide TrimRight;
    var head, tail := "(" + inner + ")", TrimRight(result);
    var t := head + (pad + mark + tail);
    TrimRightBehind(head + pad + mark, result);
    Reassociate(head + pad, mark, tail);
    Reassociate(head, pad, mark + tail);
    assert Trim(head + pad + mark + result) == t;
    MatchingIffEnclosed(inner, pad + mark + tail, '(', ')');
    assert t == ['('] + inner + [')'] + (pad + mark + tail);
    assert !Parenthesised(t);
    assert t[|head|..] == pad + (mark + tail);
    SkipsSpaces(pad, mark + tail);
    assert (mark + tail)[|mark|..] == tail;
    TrimRightTrims(result);
  }

  /** Parentheses around a whole callable type do not matter. */
  lemma ParenthesesIgnored(signature: string)
    requires Enclosed(signature, '(', ')')
    ensures CallableReturnType("(" + signature + ")") == CallableReturnType(signature)
  {
    var t := "(" + signature + ")";
    MatchingIffEnclosed(signature, "", '(', ')');
    assert t == ['('] + signature + [')'] + "";
    TrimmedFixed(t);
    assert t[1..|t| - 1] == signature;
  }

  /** What a signature is for filling in a return type: nothing yet, or one that starts with a
      parameter list. */
  predicate TakesReturn(signature: string) {
    var value := Trim(signature);
    value == "" || (value[0] == '(' && MatchingDelimiter(value, 0, '(', ')') >= 0)
  }

  /** The parameters stay, whatever stood behind them is replaced by the new return type, and that
      is what the result returns. */
  lemma ReturnFilled(left: string, inner: string, tail: string, right: string, result: string)
    requires AllSpace(left) && AllSpace(right) && Enclosed(inner, '(', ')') && Trimmed("(" + inner + ")" + tail)
    ensures CallableWithReturnType(left + ("(" + inner + ")" + tail) + right, result) == "(" + inner + ")" + " => " + result
  {
    var head := "(" + inner + ")";
    TrimPadding(left, head + tail, right);
    MatchingIffEnclosed(inner, tail, '(', ')');
    assert head + tail == ['('] + inner + [')'] + tail;
    assert (head + tail)[..|inner| + 2] == head;
    TrimmedFixed(head);
  }

  lemma FilledReturns(signature: string, result: string)
    ensures CallableReturnType(CallableWithReturnType(signature, result))
            == if TakesReturn(signature) then Trim(result) else ""
    ensures !TakesReturn(signature) ==> CallableWithReturnType(signature, result) == Trim(signature)
  {
    var value := Trim(signature);
    TrimIdempotent(signature);
    if value == "" {
      assert Enclosed("", '(', ')');
      ArrowRead("", result);
      assert "(" + "" + ")" + " => " + result == "() => " + result;
    } else if TakesReturn(signature) {
      var close := MatchingDelimiter(value, 0, '(', ')');
      var inner, tail := value[1..close], value[close + 1..];
      assert value == ['('] + inner + [')'] + tail;
      MatchingIffEnclosed(inner, tail, '(', ')');
      assert value[..close + 1] == "(" + inner + ")";
      TrimmedFixed("(" + inner + ")");
      ArrowRead(inner, result);
      Reassociate("(" + inner + ")", " => ", result);
    }
  }

  lemma ArrowRead(inner: string, result: string)
    requires Enclosed(inner, '(', ')')
    ensures CallableReturnType("(" + inner + ")" + " => " + result) == Trim(result)
  {
    var head := "(" + inner + ")";
    ReturnRead(inner, " ", "=>", " " + result);
    assert head + " " + "=>" + (" " + result) == head + " => " + result;
    TrimLeftMore(" ", result);
  }
}
