/** substituteAdminType (internal/admin/type_index.go): type parameters are replaced
    identifier by identifier. The resolver substitutes a branch again with the same
    map when it re-enters, so substituting twice must be harmless. */
module TypeSubstitution {
  import opened TextScan

  function Replacement(name: string, substitutions: map<string, string>): string {
    if name in substitutions && substitutions[name] != "" then substitutions[name] else name
  }

  function Substitute(value: string, substitutions: map<string, string>): string {
    if value == "" then ""
    else if !IdentifierStart(value[0]) then [value[0]] + Substitute(value[1..], substitutions)
    else
      var n := IdentifierRun(value);
      Replacement(value[..n], substitutions) + Substitute(value[n..], substitutions)
  }

  /** The builder loop of substituteAdminType. */
  method SubstituteAdminType(value: string, substitutions: map<string, string>) returns (result: string)
    ensures result == Substitute(value, substitutions)
  {
    if substitutions == map[] || value == "" {
      EmptySubstitution(value);
      return value;
    }
    result := "";
    var index := 0;
    ghost var whole := Substitute(value, substitutions);
    assert value[0..] == value && "" + whole == whole;
    while index < |value|
      invariant 0 <= index <= |value|
      invariant whole == result + Substitute(value[index..], substitutions)
    {
      ghost var before := result;
      var end := index + 1;
      if IdentifierStart(value[index]) {
        end := IdentifierEnd(value, index);
        result := result + Replacement(value[index..end], substitutions);
      } else {
        result := result + [value[index]];
      }
      TokenStep(whole, before, value[index..], substitutions, end - index);
      TakeToken(value, index, end - index);
      index := end;
    }
  }

  lemma TokenStep(whole: string, done: string, rest: string, s: map<string, string>, n: nat)
    requires rest != "" && whole == done + Substitute(rest, s)
    requires n == if IdentifierStart(rest[0]) then IdentifierRun(rest) else 1
    ensures whole == done + (if IdentifierStart(rest[0]) then Replacement(rest[..n], s) else [rest[0]])
                   + Substitute(rest[n..], s)
  {
    var token := if IdentifierStart(rest[0]) then Replacement(rest[..n], s) else [rest[0]];
    Reassociate(done, token, Substitute(rest[n..], s));
  }

  lemma TakeToken(value: string, index: nat, n: nat)
    requires index + n <= |value|
    ensures value[index..][n..] == value[index + n..] && value[index..][..n] == value[index..index + n]
  {
  }

  lemma {:induction false} EmptySubstitution(value: string)
    ensures Substitute(value, map[]) == value
  {
    if value != "" {
      if !IdentifierStart(value[0]) {
        EmptySubstitution(value[1..]);
      } else {
        var n := IdentifierRun(value);
        EmptySubstitution(value[n..]);
        Rejoin(value, n);
      }
    }
  }

  // ---- Substituting twice.

  /** Text that cannot extend an identifier it is appended to. */
  predicate Breaks(text: string) {
    text == "" || !IdentifierPart(text[0])
  }

  lemma {:induction false} IdentifierRunConcat(a: string, b: string)
    requires Breaks(b)
    ensures IdentifierRun(a + b) == IdentifierRun(a)
  {
    if a == "" {
      assert a + b == b;
    } else {
      assert (a + b)[1..] == a[1..] + b;
      IdentifierRunConcat(a[1..], b);
    }
  }

  lemma {:induction false} IdentifierRunBreaks(text: string)
    ensures Breaks(text[IdentifierRun(text)..])
  {
    if text != "" && IdentifierPart(text[0]) {
      IdentifierRunBreaks(text[1..]);
      assert text[1..][IdentifierRun(text[1..])..] == text[IdentifierRun(text)..];
    }
  }

  /** Substitution works on each side of an identifier boundary by itself. */
  lemma {:induction false} SubstituteConcat(a: string, b: string, s: map<string, string>)
    requires Breaks(b)
    ensures Substitute(a + b, s) == Substitute(a, s) + Substitute(b, s)
  {
    if a == "" {
      assert a + b == b;
    } else if !IdentifierStart(a[0]) {
      assert (a + b)[1..] == a[1..] + b;
      SubstituteConcat(a[1..], b, s);
      Reassociate([a[0]], Substitute(a[1..], s), Substitute(b, s));
    } else {
      var n := IdentifierRun(a);
      IdentifierRunConcat(a, b);
      assert (a + b)[n..] == a[n..] + b && (a + b)[..n] == a[..n];
      SubstituteConcat(a[n..], b, s);
      Reassociate(Replacement(a[..n], s), Substitute(a[n..], s), Substitute(b, s));
    }
  }

  lemma SubstituteBreaks(text: string, s: map<string, string>)
    requires Breaks(text)
    ensures Breaks(Substitute(text, s))
  {
  }

  ghost predicate Identifier(name: string) {
    name != "" && IdentifierStart(name[0]) && IdentifierRun(name) == |name|
  }

  lemma SubstituteIdentifier(name: string, s: map<string, string>)
    requires Identifier(name)
    ensures Substitute(name, s) == Replacement(name, s)
  {
    assert name[..|name|] == name && name[|name|..] == "";
  }

  /** A name stands for itself exactly if the map has no other text for it; an empty one is none. */
  lemma NameKeptIff(name: string, s: map<string, string>)
    requires Identifier(name)
    ensures Substitute(name, s) == name <==> (name in s ==> s[name] in {"", name})
    ensures Substitute(name, s) != name ==> name in s && Substitute(name, s) == s[name]
  {
    SubstituteIdentifier(name, s);
  }

  /** No replacement is changed by the substitution it belongs to. */
  ghost predicate ReplacementsStable(s: map<string, string>) {
    forall k :: k in s && Identifier(k) && s[k] != "" ==> Substitute(s[k], s) == s[k]
  }

  lemma {:induction false} IdentifierRunIsIdentifier(text: string)
    requires text != "" && IdentifierStart(text[0])
    ensures Identifier(text[..IdentifierRun(text)])
  {
    RunOfPrefix(text);
    assert text[..IdentifierRun(text)][0] == text[0];
  }

  lemma {:induction false} RunOfPrefix(text: string)
    ensures IdentifierRun(text[..IdentifierRun(text)]) == IdentifierRun(text)
  {
    if text != "" && IdentifierPart(text[0]) {
      RunOfPrefix(text[1..]);
      assert text[..IdentifierRun(text)][1..] == text[1..][..IdentifierRun(text[1..])];
    }
  }

  lemma {:induction false} StableSubstitutesOnce(value: string, s: map<string, string>)
    requires ReplacementsStable(s)
    ensures Substitute(Substitute(value, s), s) == Substitute(value, s)
    decreases |value|
  {
    if value == "" {
    } else if !IdentifierStart(value[0]) {
      StableSubstitutesOnce(value[1..], s);
      var tail := Substitute(value[1..], s);
      assert ([value[0]] + tail)[1..] == tail;
    } else {
      var n := IdentifierRun(value);
      var name, r, tail := value[..n], Replacement(value[..n], s), Substitute(value[n..], s);
      StableSubstitutesOnce(value[n..], s);
      IdentifierRunBreaks(value);
      SubstituteBreaks(value[n..], s);
      SubstituteConcat(r, tail, s);
      IdentifierRunIsIdentifier(value);
      SubstituteIdentifier(name, s);
    }
  }

  /** Substituting twice is substituting once, whatever the text. */
  ghost predicate SubstitutesOnce(s: map<string, string>) {
    forall value :: Substitute(Substitute(value, s), s) == Substitute(value, s)
  }

  /** Substituting twice is harmless on every text exactly when no replacement is itself
      changed by the map. */
  lemma SubstituteIdempotentIff(s: map<string, string>)
    ensures SubstitutesOnce(s) <==> ReplacementsStable(s)
  {
    if ReplacementsStable(s) {
      forall value ensures Substitute(Substitute(value, s), s) == Substitute(value, s) {
        StableSubstitutesOnce(value, s);
      }
    }
    if SubstitutesOnce(s) {
      forall k | k in s && Identifier(k) && s[k] != "" ensures Substitute(s[k], s) == s[k] {
        SubstituteIdentifier(k, s);
        assert Substitute(Substitute(k, s), s) == Substitute(k, s);
      }
    }
  }

  /** Some identifier of the text is a key. */
  predicate MentionsKey(value: string, keys: set<string>) {
    if value == "" then false
    else if !IdentifierStart(value[0]) then MentionsKey(value[1..], keys)
    else
      var n := IdentifierRun(value);
      value[..n] in keys || MentionsKey(value[n..], keys)
  }

  lemma {:induction false} UnmentionedUnchanged(value: string, s: map<string, string>)
    requires !MentionsKey(value, s.Keys)
    ensures Substitute(value, s) == value
    decreases |value|
  {
    if value != "" {
      if !IdentifierStart(value[0]) {
        UnmentionedUnchanged(value[1..], s);
      } else {
        var n := IdentifierRun(value);
        UnmentionedUnchanged(value[n..], s);
        Rejoin(value, n);
      }
    }
  }

  /** The condition a caller can read off the map: no replacement mentions a key. */
  lemma UnmentionedKeysAreStable(s: map<string, string>)
    requires forall k :: k in s ==> !MentionsKey(s[k], s.Keys)
    ensures SubstitutesOnce(s)
  {
    forall k | k in s ensures Substitute(s[k], s) == s[k] {
      UnmentionedUnchanged(s[k], s);
    }
    SubstituteIdempotentIff(s);
  }

  /** Swapped parameters, as in a declaration instantiated with its own parameters the other
      way round: the second substitution undoes the first. */
  lemma SwapWitness()
    ensures var s := map["T" := "U", "U" := "T"]; Substitute(Substitute("T", s), s) == "T" != Substitute("T", s)
  {
    var s := map["T" := "U", "U" := "T"];
    assert "T"[1..] == "" && "U"[1..] == "";
    assert Identifier("T") && Identifier("U");
    SubstituteIdentifier("T", s);
    SubstituteIdentifier("U", s);
    assert "T"[0] != "U"[0];
  }

  // ---- What is no reference to a parameter.

  /** A character that starts no identifier stays where it is. */
  lemma SubstituteMark(c: char, rest: string, s: map<string, string>)
    requires !IdentifierStart(c)
    ensures Substitute([c] + rest, s) == [c] + Substitute(rest, s)
  {
    assert ([c] + rest)[1..] == rest;
  }

  /** An object type with one property. */
  function ObjectText(property: string, valueType: string): string {
    ['{'] + ([' '] + (property + ([':'] + ([' '] + (valueType + " }")))))
  }

  lemma AnnotationReplaced(valueType: string, s: map<string, string>)
    ensures Substitute([':'] + ([' '] + (valueType + " }")), s) == [':'] + ([' '] + (Substitute(valueType, s) + " }"))
  {
    assert Substitute(" }", s) == " }" by {
      assert " }" == [' '] + (['}'] + "");
      SubstituteMark(' ', ['}'] + "", s);
      SubstituteMark('}', "", s);
    }
    hide Substitute;
    SubstituteMark(':', [' '] + (valueType + " }"), s);
    SubstituteMark(' ', valueType + " }", s);
    SubstituteConcat(valueType, " }", s);
  }

  /** Property names are replaced like references: an object type keeps the name of its property
      exactly when the name stands for itself. */
  lemma PropertyKeptIff(property: string, valueType: string, s: map<string, string>)
    requires Identifier(property)
    ensures Substitute(ObjectText(property, valueType), s) == ObjectText(Replacement(property, s), Substitute(valueType, s))
    ensures Substitute(ObjectText(property, valueType), s) == ObjectText(property, Substitute(valueType, s))
       <==> Replacement(property, s) == property
  {
    hide Substitute, Replacement, Identifier;
    var typed := [':'] + ([' '] + (valueType + " }"));
    AnnotationReplaced(valueType, s);
    SubstituteConcat(property, typed, s);
    SubstituteIdentifier(property, s);
    SubstituteMark(' ', property + typed, s);
    SubstituteMark('{', [' '] + (property + typed), s);
    SameTail(Replacement(property, s), property, [':'] + ([' '] + (Substitute(valueType, s) + " }")));
  }

  lemma SameTail(a: string, b: string, tail: string)
    ensures ['{'] + ([' '] + (a + tail)) == ['{'] + ([' '] + (b + tail)) <==> a == b
  {
    var x, y := ['{'] + ([' '] + (a + tail)), ['{'] + ([' '] + (b + tail));
    if x == y {
      assert |a| == |b| && x[2..2 + |a|] == a && y[2..2 + |b|] == b;
    }
  }

  /** And so are the words in quotes. */
  lemma LiteralKeptIff(word: string, s: map<string, string>)
    requires Identifier(word)
    ensures Substitute(['\''] + (word + "'"), s) == ['\''] + (Replacement(word, s) + "'")
    ensures Substitute(['\''] + (word + "'"), s) == ['\''] + (word + "'") <==> Replacement(word, s) == word
  {
    SubstituteMark('\'', word + "'", s);
    SubstituteConcat(word, "'", s);
    SubstituteIdentifier(word, s);
    SubstituteMark('\'', "", s);
    var x, y := ['\''] + (Replacement(word, s) + "'"), ['\''] + (word + "'");
    if x == y {
      assert x[1..|x| - 1] == Replacement(word, s) && y[1..|y| - 1] == word;
    }
  }

  /** `type Wrap<value> = { value: value }` applied to `string` has a property named string. */
  lemma CaptureWitness()
    ensures Substitute(ObjectText("value", "value"), map["value" := "string"]) == ObjectText("string", "string")
  {
    assert Identifier("value") by { ValueIsIdentifier(); }
    PropertyKeptIff("value", "value", map["value" := "string"]);
    SubstituteIdentifier("value", map["value" := "string"]);
  }

  lemma ValueIsIdentifier()
    ensures Identifier("value")
  {
    assert "value"[1..] == "alue" && "alue"[1..] == "lue" && "lue"[1..] == "ue" && "ue"[1..] == "e" && "e"[1..] == "";
  }
}
