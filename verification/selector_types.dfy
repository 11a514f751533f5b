/** What component names read from a type say about its values, and when that is right:
    internal/admin/dynamic_component_resolution.go:525-545 and type_index.go:912-919. */
module SelectorTypes {
  import opened TextScan
  import opened TypeText
  import opened SelectorText
  import opened SelectorResolver

  // ---- Values.

  datatype Value = Undefined | Null | False | Str(text: string) | ComponentValue(name: string) | Other(id: int, truthy: bool)

  predicate ListedName(names: seq<string>, name: string) {
    name != "" && name in names
  }

  /** A listed name (white space around it aside) or nothing to render. */
  predicate Listed(names: seq<string>, v: Value) {
    match v
    case Undefined => true
    case Null => true
    case False => true
    case Str(text) => ListedName(names, text) || ListedName(names, Trim(text))
    case ComponentValue(name) => ListedName(names, name)
    case Other(_, _) => false
  }

  /** What an answer claims about a value. */
  predicate Covers(answer: Names, v: Value) {
    answer.complete ==> answer.found && Listed(answer.names, v)
  }

  lemma ListedGrows(names: seq<string>, more: seq<string>, v: Value)
    requires Listed(names, v)
    ensures Listed(AppendUnique(names, more), v) && Listed(AppendUnique(more, names), v)
  {
    var candidates := match v case Str(text) => [text, Trim(text)] case ComponentValue(name) => [name] case _ => [];
    forall x | x in candidates && ListedName(names, x)
      ensures ListedName(AppendUnique(names, more), x) && ListedName(AppendUnique(more, names), x)
    {
      AppendUniqueMember(names, more, x);
      AppendUniqueMember(more, names, x);
    }
    match v
    case Str(text) => assert text in candidates && Trim(text) in candidates;
    case ComponentValue(name) => assert name in candidates;
    case _ =>
  }

  lemma MergeCovers(left: Names, right: Names, v: Value)
    requires Covers(left, v) || Covers(right, v)
    ensures Covers(Merge(left, right), v)
  {
    if Merge(left, right).complete {
      if Covers(left, v) {
        ListedGrows(left.names, right.names, v);
      } else {
        ListedGrows(right.names, left.names, v);
      }
    }
  }

  // ---- The meaning of types.

  predicate QuotedText(t: string) {
    |t| >= 2 && t[0] == t[|t| - 1] && IsQuote(t[0])
  }

  /** A string literal type that is spelled as it reads: no escape, no quote of its own kind and,
      between backticks, no hole. */
  predicate LiteralType(t: string) {
    QuotedText(t) && (t[1..|t| - 1] == "" || PlainName(t[1..|t| - 1], t[0]))
  }

  /** A template literal type with holes. */
  predicate PatternType(t: string) {
    var inner := if |t| >= 2 then t[1..|t| - 1] else "";
    QuotedText(t) && t[0] == '`' && '\\' !in inner && '`' !in inner && Interpolates(inner)
  }

  /** The text in front of the first hole. */
  function FrontOf(pattern: string): string {
    if pattern == "" || InterpolatesAt(pattern, 0) then "" else [pattern[0]] + FrontOf(pattern[1..])
  }

  predicate StartsWith(text: string, front: string) {
    |front| <= |text| && text[..|front|] == front
  }

  /** The values of one alternative of a union type. A pattern admits the strings that start as it
      does; texts that are neither literals, patterns nor constants are not looked into and may
      hold anything. */
  predicate AlternativeHolds(alternative: string, v: Value) {
    var t := Trim(alternative);
    if LiteralType(t) then v == Str(t[1..|t| - 1])
    else if PatternType(t) then v.Str? && StartsWith(v.text, FrontOf(t[1..|t| - 1]))
    else if t == "null" then v == Null
    else if t == "undefined" then v == Undefined
    else if t == "false" then v == False
    else if t == "never" then false
    else true
  }

  /** The type bounds the value. */
  ghost predicate Inhabits(memberType: string, v: Value) {
    exists alternative :: alternative in Split(Trim(memberType), '|') && AlternativeHolds(alternative, v)
  }

  /** Every alternative that is taken for a name is a literal. */
  predicate PlainAlternative(alternative: string) {
    TypeStringLiteral(Trim(alternative)) != "" ==> LiteralType(Trim(alternative))
  }

  predicate PlainType(memberType: string) {
    forall alternative :: alternative in Split(Trim(memberType), '|') ==> PlainAlternative(alternative)
  }

  // ---- Names from a type.

  lemma AlternativeListed(alternative: string, names: seq<string>, v: Value)
    requires AlternativeHolds(alternative, v) && PlainAlternative(alternative)
    requires TypeStringLiteral(Trim(alternative)) != "" ==> TypeStringLiteral(Trim(alternative)) in names
    requires TypeStringLiteral(Trim(alternative)) != "" || NoName(Trim(alternative))
    ensures Listed(names, v)
  {
    TrimIdempotent(alternative);
  }

  lemma {:induction false} AlternativesListed(alternatives: seq<string>, names: seq<string>, alternative: string, v: Value)
    requires NamesFromAlternatives(alternatives, names).complete
    ensures NamesFromAlternatives(alternatives, names).found
    ensures forall x :: x in names ==> x in NamesFromAlternatives(alternatives, names).names
    ensures alternative in alternatives && AlternativeHolds(alternative, v) && PlainAlternative(alternative) ==>
              Listed(NamesFromAlternatives(alternatives, names).names, v)
  {
    if alternatives != [] {
      var t := Trim(alternatives[0]);
      var name := TypeStringLiteral(t);
      var next := if name != "" then AppendUnique(names, [name]) else names;
      forall x | x in names ensures x in next {
        AppendUniqueMember(names, [name], x);
      }
      AppendUniqueMember(names, [name], name);
      AlternativesListed(alternatives[1..], next, alternative, v);
      if alternative == alternatives[0] && AlternativeHolds(alternative, v) && PlainAlternative(alternative) {
        AlternativeListed(alternative, NamesFromAlternatives(alternatives, names).names, v);
      }
    }
  }

  /** Complete names from a type of literals cover every value of the type. */
  lemma TypeCovers(memberType: string, v: Value)
    requires Trim(memberType) != "" ==> Inhabits(memberType, v) && PlainType(memberType)
    ensures Covers(NamesFromType(memberType), v)
  {
    if NamesFromType(memberType).complete {
      var alternative :| alternative in Split(Trim(memberType), '|') && AlternativeHolds(alternative, v);
      AlternativesListed(Split(Trim(memberType), '|'), [], alternative, v);
    }
  }

  // ---- A string no list of names holds.

  function Longest(names: seq<string>): (n: nat)
    ensures forall x :: x in names ==> |x| <= n
  {
    if names == [] then 0
    else
      var n := Longest(names[1..]);
      if |names[0]| > n then |names[0]| else n
  }

  lemma {:induction false} TrimLeftKeeps(front: string, back: string)
    requires back != "" && !IsSpace(back[0])
    ensures exists kept :: TrimLeft(front + back) == kept + back
  {
    if front == "" {
      assert front + back == back && back == "" + back;
    } else if IsSpace(front[0]) {
      assert (front + back)[1..] == front[1..] + back;
      TrimLeftKeeps(front[1..], back);
    }
  }

  /** A string that starts as asked and stays longer than the names when it is trimmed. */
  lemma FreshText(front: string, names: seq<string>) returns (text: string)
    ensures StartsWith(text, front) && !Listed(names, Str(text))
  {
    var back := seq(Longest(names) + 1, _ => 'z');
    text := front + back;
    TrimLeftKeeps(front, back);
    var kept :| TrimLeft(text) == kept + back;
    assert TrimLeft(text)[|TrimLeft(text)| - 1] == 'z';
    assert Trim(text) == kept + back;
  }

  /** A value of an alternative that is taken for a name and is no literal. */
  lemma OpenAlternative(alternative: string, names: seq<string>) returns (v: Value)
    requires !PlainAlternative(alternative)
    ensures AlternativeHolds(alternative, v) && !Listed(names, v)
  {
    var t := Trim(alternative);
    TrimIdempotent(alternative);
    assert QuotedText(t);
    if PatternType(t) {
      var text := FreshText(FrontOf(t[1..|t| - 1]), names);
      v := Str(text);
    } else {
      v := Value.Other(0, true);
    }
  }

  /** Exactly the types whose names are all literals mean no more than the names: an alternative
      between quotes that holds a hole, an escape or a quote of its own is taken for the one name
      it spells, whatever it admits. */
  lemma TypeCoversIff(memberType: string)
    requires NamesFromType(memberType).complete
    ensures (forall v :: Inhabits(memberType, v) ==> Listed(NamesFromType(memberType).names, v)) <==> PlainType(memberType)
  {
    var names := NamesFromType(memberType).names;
    if PlainType(memberType) {
      forall v | Inhabits(memberType, v) ensures Listed(names, v) {
        TypeCovers(memberType, v);
      }
    } else {
      var alternative :| alternative in Split(Trim(memberType), '|') && !PlainAlternative(alternative);
      var v := OpenAlternative(alternative, names);
      assert Inhabits(memberType, v);
    }
  }

  // ---- One name for all values.

  /** The alternative admits nothing but the name and nothing to render. */
  predicate OnlyName(alternative: string, name: string) {
    var t := Trim(alternative);
    NoName(t) || (LiteralType(t) && Listed([name], Str(t[1..|t| - 1])))
  }

  /** A type that is known and whose alternatives are the name or nothing to render. */
  predicate OnlyNames(memberType: string, name: string) {
    Trim(memberType) != "" && forall alternative :: alternative in Split(Trim(memberType), '|') ==> OnlyName(alternative, name)
  }

  /** What a type that may be unknown allows. */
  ghost predicate Allows(memberType: string, v: Value) {
    Trim(memberType) != "" ==> Inhabits(memberType, v)
  }

  lemma OtherThanName(alternative: string, name: string) returns (v: Value)
    requires !OnlyName(alternative, name)
    ensures AlternativeHolds(alternative, v) && !Listed([name], v)
  {
    var t := Trim(alternative);
    if LiteralType(t) {
      v := Str(t[1..|t| - 1]);
    } else if PatternType(t) {
      var text := FreshText(FrontOf(t[1..|t| - 1]), [name]);
      v := Str(text);
    } else {
      v := Value.Other(0, true);
    }
  }

  lemma NoNameIsNothing(alternative: string, name: string, v: Value)
    requires OnlyName(alternative, name) && AlternativeHolds(alternative, v)
    ensures Listed([name], v)
  {
  }

  /** One name is right for every value a type allows exactly when the type has no alternative but
      that name and nothing to render. */
  lemma OneNameIff(memberType: string, name: string)
    ensures (forall v :: Allows(memberType, v) ==> Listed([name], v)) <==> OnlyNames(memberType, name)
  {
    if Trim(memberType) == "" {
      assert Allows(memberType, Value.Other(0, true)) && !Listed([name], Value.Other(0, true));
    } else if OnlyNames(memberType, name) {
      forall v | Allows(memberType, v) ensures Listed([name], v) {
        var alternative :| alternative in Split(Trim(memberType), '|') && AlternativeHolds(alternative, v);
        NoNameIsNothing(alternative, name, v);
      }
    } else {
      var alternative :| alternative in Split(Trim(memberType), '|') && !OnlyName(alternative, name);
      var v := OtherThanName(alternative, name);
      assert Allows(memberType, v);
    }
  }
}
