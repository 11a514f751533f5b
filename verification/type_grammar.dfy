/** Types as they are written, and when splitting a list of them gives them back
    (internal/admin/type_index.go:1241-1285). */
module TypeGrammar {
  import opened AdminModel
  import opened TextScan
  import opened TypeText

  datatype Field = Field(name: string, fieldType: TypeExpr)

  /** Names, quoted literals, generics, tuples, object and function types, parentheses, arrays,
      unions and intersections, with comments in front. */
  datatype TypeExpr =
    | Name(text: string)
    | Quoted(quote: char, body: string)
    | Generic(name: string, arguments: seq<TypeExpr>)
    | Tuple(items: seq<TypeExpr>)
    | Object(fields: seq<Field>)
    | Function(parameters: seq<Field>, result: TypeExpr)
    | Paren(inner: TypeExpr)
    | ArrayOf(inner: TypeExpr)
    | Operator(op: char, parts: seq<TypeExpr>)
    | LineComment(body: string, inner: TypeExpr)
    | BlockComment(body: string, inner: TypeExpr)

  // ---- Printing.

  function Separated(op: char): string {
    if op == '|' || op == '&' then [' '] + [op] + [' '] else [op] + [' ']
  }

  function Print(t: TypeExpr): string
    decreases t, 0
  {
    match t
    case Name(text) => text
    case Quoted(quote, body) => [quote] + (body + [quote])
    case Generic(name, arguments) => name + (['<'] + (PrintAll(arguments, ',') + ['>']))
    case Tuple(items) => ['['] + (PrintAll(items, ',') + [']'])
    case Object(fields) => ['{'] + (PrintFields(fields, ';') + ['}'])
    case Function(parameters, result) =>
      ['('] + (PrintFields(parameters, ',') + ([')'] + (" =" + (['>'] + (" " + Print(result))))))
    case Paren(inner) => ['('] + (Print(inner) + [')'])
    case ArrayOf(inner) => Print(inner) + (['['] + [']'])
    case Operator(op, parts) => PrintAll(parts, op)
    case LineComment(body, inner) => "//" + (body + ("\n" + Print(inner)))
    case BlockComment(body, inner) => "/*" + (body + ("*/" + Print(inner)))
  }

  function PrintAll(ts: seq<TypeExpr>, op: char): string
    decreases ts, 1
  {
    if ts == [] then ""
    else if |ts| == 1 then Print(ts[0])
    else Print(ts[0]) + (Separated(op) + PrintAll(ts[1..], op))
  }

  function PrintField(f: Field): string
    decreases f, 1
  {
    f.name + (": " + Print(f.fieldType))
  }

  function PrintFields(fs: seq<Field>, op: char): string
    decreases fs, 1
  {
    if fs == [] then ""
    else if |fs| == 1 then PrintField(fs[0])
    else PrintField(fs[0]) + (Separated(op) + PrintFields(fs[1..], op))
  }

  predicate NameText(text: string) {
    text != "" && forall i :: 0 <= i < |text| ==> IdentifierPart(text[i]) || text[i] == '.' || text[i] == '?'
  }

  /** Every quote of its own kind is escaped, and no escape is cut off. */
  predicate Escaped(body: string, quote: char)
    decreases |body|
  {
    body != "" ==>
      if body[0] == '\\' then |body| >= 2 && Escaped(body[2..], quote) else body[0] != quote && Escaped(body[1..], quote)
  }

  predicate CommentBody(body: string) {
    '*' !in body
  }

  predicate WellFormed(t: TypeExpr)
    decreases t, 0
  {
    match t
    case Name(text) => NameText(text)
    case Quoted(quote, body) => IsQuote(quote) && Escaped(body, quote)
    case Generic(name, arguments) => NameText(name) && arguments != [] && AllWellFormed(arguments)
    case Tuple(items) => AllWellFormed(items)
    case Object(fields) => FieldsWellFormed(fields)
    case Function(parameters, result) => FieldsWellFormed(parameters) && WellFormed(result)
    case Paren(inner) => WellFormed(inner)
    case ArrayOf(inner) => WellFormed(inner)
    case Operator(op, parts) => (op == '|' || op == '&') && |parts| >= 2 && AllWellFormed(parts)
    case LineComment(body, inner) => '\n' !in body && WellFormed(inner)
    case BlockComment(body, inner) => CommentBody(body) && WellFormed(inner)
  }

  predicate AllWellFormed(ts: seq<TypeExpr>)
    decreases ts, 1
  {
    forall i :: 0 <= i < |ts| ==> WellFormed(ts[i])
  }

  predicate FieldsWellFormed(fs: seq<Field>)
    decreases fs, 1
  {
    forall i :: 0 <= i < |fs| ==> NameText(fs[i].name) && WellFormed(fs[i].fieldType)
  }

  // ---- Separators that a type shows.

  /** An arrow inside a generic is taken for its closing bracket: how many of `n` open angle
      brackets are left behind the type. */
  function Left(t: TypeExpr, n: nat): nat
    decreases t, 0
  {
    match t
    case Generic(_, arguments) => Less(LeftAll(arguments, n + 1))
    case Tuple(items) => LeftAll(items, n)
    case Object(fields) => LeftFields(fields, n)
    case Function(parameters, result) => Left(result, Less(LeftFields(parameters, n)))
    case Paren(inner) => Left(inner, n)
    case ArrayOf(inner) => Left(inner, n)
    case Operator(_, parts) => LeftAll(parts, n)
    case LineComment(_, inner) => Left(inner, n)
    case BlockComment(_, inner) => Left(inner, n)
    case _ => n
  }

  function Less(n: nat): nat {
    if n == 0 then 0 else n - 1
  }

  function LeftAll(ts: seq<TypeExpr>, n: nat): nat
    decreases ts, 1
  {
    if ts == [] then n else LeftAll(ts[1..], Left(ts[0], n))
  }

  function LeftFields(fs: seq<Field>, n: nat): nat
    decreases fs, 1
  {
    if fs == [] then n else LeftFields(fs[1..], Left(fs[0].fieldType, n))
  }

  /** A separator of the type stands outside all brackets, as far as these are still open. */
  predicate Exposed(t: TypeExpr, s: char, n: nat)
    decreases t, 0
  {
    match t
    case Generic(_, arguments) => ExposedAll(arguments, ',', s, n + 1)
    case Function(parameters, result) => Exposed(result, s, Less(LeftFields(parameters, n)))
    case ArrayOf(inner) => Exposed(inner, s, n)
    case Operator(op, parts) => ExposedAll(parts, op, s, n)
    case LineComment(_, inner) => Exposed(inner, s, n)
    case BlockComment(_, inner) => Exposed(inner, s, n)
    case _ => false
  }

  predicate ExposedAll(ts: seq<TypeExpr>, op: char, s: char, n: nat)
    decreases ts, 1
  {
    ts != [] &&
    (Exposed(ts[0], s, n)
     || (|ts| > 1 && ((op == s && Left(ts[0], n) == 0) || ExposedAll(ts[1..], op, s, Left(ts[0], n)))))
  }

  // ---- Reading a printed type.

  /** The brackets open around a place. */
  datatype Opened = Opened(braces: nat, parens: nat, brackets: nat, angles: nat)

  function Scan(o: Opened): TypeScan {
    TypeScan(false, '\0', false, false, false, o.braces, o.parens, o.brackets, o.angles)
  }

  predicate Hidden(o: Opened) {
    o.braces > 0 || o.parens > 0 || o.brackets > 0
  }

  function Add(text: string, rest: (string, Option<string>)): (string, Option<string>) {
    (text + rest.0, rest.1)
  }

  /** The text is read as a part of the piece, whatever follows. */
  ghost predicate Reads(text: string, s: char, st: TypeScan, next: TypeScan) {
    forall tail :: FirstPiece(text + tail, s, st) == Add(text, FirstPiece(tail, s, next))
  }

  lemma ReadsAt(text: string, s: char, st: TypeScan, next: TypeScan, tail: string)
    requires Reads(text, s, st, next)
    ensures FirstPiece(text + tail, s, st) == Add(text, FirstPiece(tail, s, next))
  {
    hide FirstPiece;
  }

  lemma NothingAt(s: char, st: TypeScan, tail: string)
    ensures FirstPiece("" + tail, s, st) == Add("", FirstPiece(tail, s, st))
  {
    hide FirstPiece;
    assert "" + tail == tail;
    var rest := FirstPiece(tail, s, st);
    assert "" + rest.0 == rest.0;
  }

  lemma ReadsNothing(s: char, st: TypeScan)
    ensures Reads("", s, st, st)
  {
    hide FirstPiece, Add;
    forall tail ensures FirstPiece("" + tail, s, st) == Add("", FirstPiece(tail, s, st)) {
      NothingAt(s, st, tail);
    }
  }

  lemma ThenAt(a: string, b: string, s: char, st: TypeScan, mid: TypeScan, next: TypeScan, tail: string)
    requires Reads(a, s, st, mid) && Reads(b, s, mid, next)
    ensures FirstPiece(a + b + tail, s, st) == Add(a + b, FirstPiece(tail, s, next))
  {
    hide FirstPiece, Reads;
    ReadsAt(a, s, st, mid, b + tail);
    ReadsAt(b, s, mid, next, tail);
    assert a + b + tail == a + (b + tail);
    var rest := FirstPiece(tail, s, next);
    assert a + (b + rest.0) == a + b + rest.0;
  }

  lemma ReadsThen(a: string, b: string, s: char, st: TypeScan, mid: TypeScan, next: TypeScan)
    requires Reads(a, s, st, mid) && Reads(b, s, mid, next)
    ensures Reads(a + b, s, st, next)
  {
    hide FirstPiece;
    forall tail ensures FirstPiece(a + b + tail, s, st) == Add(a + b, FirstPiece(tail, s, next)) {
      ThenAt(a, b, s, st, mid, next, tail);
    }
  }

  lemma HeadThen(text: string, s: char, st: TypeScan, mid: TypeScan, next: TypeScan)
    requires text != "" && Reads([text[0]], s, st, mid) && Reads(text[1..], s, mid, next)
    ensures Reads(text, s, st, next)
  {
    hide Reads, FirstPiece;
    ReadsThen([text[0]], text[1..], s, st, mid, next);
    assert [text[0]] + text[1..] == text;
  }

  /** A turn of one character that cuts nothing. */
  lemma ReadsChar(c: char, s: char, st: TypeScan, next: TypeScan)
    requires forall tail :: Turn(st, [c] + tail, s) == (next, 1, false)
    ensures Reads([c], s, st, next)
  {
    forall tail ensures FirstPiece([c] + tail, s, st) == Add([c], FirstPiece(tail, s, next)) {
      var text := [c] + tail;
      assert Turn(st, text, s) == (next, 1, false);
      assert text[..1] == [c] && text[1..] == tail;
    }
  }

  /** Neither a bracket, a quote nor the start of a comment. */
  predicate Ordinary(c: char) {
    !IsQuote(c) && c != '/' && c != '{' && c != '}' && c != '(' && c != ')' && c != '[' && c != ']' && c != '<' && c != '>'
  }

  lemma OrdinaryReads(c: char, s: char, o: Opened)
    requires Ordinary(c) && (c == s ==> Hidden(o) || o.angles > 0)
    ensures Reads([c], s, Scan(o), Scan(o))
  {
    hide Reads, FirstPiece;
    forall tail ensures Turn(Scan(o), [c] + tail, s) == (Scan(o), 1, false) {
      assert ([c] + tail)[0] == c;
    }
    ReadsChar(c, s, Scan(o), Scan(o));
  }

  lemma {:induction false} TextReads(text: string, s: char, o: Opened)
    requires forall i :: 0 <= i < |text| ==> Ordinary(text[i]) && text[i] != s
    ensures Reads(text, s, Scan(o), Scan(o))
  {
    hide Reads, FirstPiece;
    if text == "" {
      ReadsNothing(s, Scan(o));
    } else {
      OrdinaryReads(text[0], s, o);
      TextReads(text[1..], s, o);
      HeadThen(text, s, Scan(o), Scan(o), Scan(o));
    }
  }

  /** What the brackets do. */
  function Bracketed(c: char, o: Opened): Opened {
    match c
    case '{' => o.(braces := o.braces + 1)
    case '}' => o.(braces := Less(o.braces))
    case '(' => o.(parens := o.parens + 1)
    case ')' => o.(parens := Less(o.parens))
    case '[' => o.(brackets := o.brackets + 1)
    case ']' => o.(brackets := Less(o.brackets))
    case '<' => o.(angles := o.angles + 1)
    case '>' => o.(angles := Less(o.angles))
    case _ => o
  }

  lemma BracketReads(c: char, s: char, o: Opened)
    requires PlainSeparator(s) && !Ordinary(c) && !IsQuote(c) && c != '/'
    ensures Reads([c], s, Scan(o), Scan(Bracketed(c, o)))
  {
    hide Reads, FirstPiece;
    forall tail ensures Turn(Scan(o), [c] + tail, s) == (Scan(Bracketed(c, o)), 1, false) {
      assert ([c] + tail)[0] == c;
    }
    ReadsChar(c, s, Scan(o), Scan(Bracketed(c, o)));
  }

  lemma QuoteCloses(quote: char, s: char, o: Opened)
    requires IsQuote(quote) && PlainSeparator(s)
    ensures Reads([quote], s, Scan(o).(quoted := true, quote := quote), Scan(o))
  {
    var st := Scan(o).(quoted := true, quote := quote);
    forall tail ensures FirstPiece([quote] + tail, s, st) == Add([quote], FirstPiece(tail, s, Scan(o))) {
      var text := [quote] + tail;
      assert Turn(st, text, s) == (Scan(o).(quote := quote), 1, false);
      assert text[..1] == [quote] && text[1..] == tail;
      FirstPieceQuoteBlind(tail, s, Scan(o).(quote := quote), Scan(o));
    }
  }

  lemma {:induction false} QuotedRest(body: string, quote: char, s: char, o: Opened)
    requires IsQuote(quote) && Escaped(body, quote) && PlainSeparator(s)
    ensures Reads(body + [quote], s, Scan(o).(quoted := true, quote := quote), Scan(o))
    decreases |body|
  {
    hide Reads, FirstPiece;
    var st := Scan(o).(quoted := true, quote := quote);
    if body == "" {
      QuoteCloses(quote, s, o);
      assert body + [quote] == [quote];
    } else {
      var text := body + [quote];
      if body[0] == '\\' {
        QuotedRest(body[2..], quote, s, o);
        ReadsChar('\\', s, st, st.(escaped := true));
        ReadsChar(body[1], s, st.(escaped := true), st);
        assert text[1..][1..] == body[2..] + [quote] && text[1..][0] == body[1];
        HeadThen(text[1..], s, st.(escaped := true), st, Scan(o));
        HeadThen(text, s, st, st.(escaped := true), Scan(o));
      } else {
        QuotedRest(body[1..], quote, s, o);
        ReadsChar(body[0], s, st, st);
        assert text[1..] == body[1..] + [quote];
        HeadThen(text, s, st, st, Scan(o));
      }
    }
  }

  lemma QuotedReads(quote: char, body: string, s: char, o: Opened)
    requires IsQuote(quote) && Escaped(body, quote) && PlainSeparator(s)
    ensures Reads([quote] + (body + [quote]), s, Scan(o), Scan(o))
  {
    hide Reads, FirstPiece;
    var st := Scan(o).(quoted := true, quote := quote);
    ReadsChar(quote, s, Scan(o), st);
    QuotedRest(body, quote, s, o);
    ReadsThen([quote], body + [quote], s, Scan(o), st, Scan(o));
  }

  lemma {:induction false} LineRest(body: string, s: char, o: Opened)
    requires '\n' !in body && PlainSeparator(s)
    ensures Reads(body + "\n", s, Scan(o).(lineComment := true), Scan(o))
  {
    hide Reads, FirstPiece;
    var st := Scan(o).(lineComment := true);
    if body == "" {
      ReadsChar('\n', s, st, Scan(o));
      assert body + "\n" == ['\n'];
    } else {
      LineRest(body[1..], s, o);
      ReadsChar(body[0], s, st, st);
      assert (body + "\n")[1..] == body[1..] + "\n";
      HeadThen(body + "\n", s, st, st, Scan(o));
    }
  }

  /** Two characters read in one turn. */
  lemma ReadsPair(pair: string, s: char, st: TypeScan, next: TypeScan)
    requires |pair| == 2 && forall tail :: Turn(st, pair + tail, s) == (next, 2, false)
    ensures Reads(pair, s, st, next)
  {
    forall tail ensures FirstPiece(pair + tail, s, st) == Add(pair, FirstPiece(tail, s, next)) {
      var text := pair + tail;
      assert Turn(st, text, s) == (next, 2, false);
      assert text[..2] == pair && text[2..] == tail;
    }
  }

  lemma LineReads(body: string, s: char, o: Opened)
    requires '\n' !in body && PlainSeparator(s)
    ensures Reads("//" + (body + "\n"), s, Scan(o), Scan(o))
  {
    hide Reads, FirstPiece;
    var st := Scan(o).(lineComment := true);
    forall tail ensures Turn(Scan(o), "//" + tail, s) == (st, 2, false) {
      assert ("//" + tail)[0] == '/' && ("//" + tail)[1] == '/';
    }
    ReadsPair("//", s, Scan(o), st);
    LineRest(body, s, o);
    ReadsThen("//", body + "\n", s, Scan(o), st, Scan(o));
  }

  lemma {:induction false} BlockRest(body: string, s: char, o: Opened)
    requires CommentBody(body) && PlainSeparator(s)
    ensures Reads(body + "*/", s, Scan(o).(blockComment := true), Scan(o))
  {
    hide Reads, FirstPiece;
    var st := Scan(o).(blockComment := true);
    if body == "" {
      forall tail ensures Turn(st, "*/" + tail, s) == (Scan(o), 2, false) {
        assert ("*/" + tail)[0] == '*' && ("*/" + tail)[1] == '/';
      }
      ReadsPair("*/", s, st, Scan(o));
      assert body + "*/" == "*/";
    } else {
      assert body[0] in body;
      BlockRest(body[1..], s, o);
      ReadsChar(body[0], s, st, st);
      assert (body + "*/")[1..] == body[1..] + "*/";
      HeadThen(body + "*/", s, st, st, Scan(o));
    }
  }

  lemma BlockReads(body: string, s: char, o: Opened)
    requires CommentBody(body) && PlainSeparator(s)
    ensures Reads("/*" + (body + "*/"), s, Scan(o), Scan(o))
  {
    hide Reads, FirstPiece;
    var st := Scan(o).(blockComment := true);
    forall tail ensures Turn(Scan(o), "/*" + tail, s) == (st, 2, false) {
      assert ("/*" + tail)[0] == '/' && ("/*" + tail)[1] == '*';
    }
    ReadsPair("/*", s, Scan(o), st);
    BlockRest(body, s, o);
    ReadsThen("/*", body + "*/", s, Scan(o), st, Scan(o));
  }

  // ---- Reading types.

  lemma NameReads(text: string, s: char, o: Opened)
    requires NameText(text) && PlainSeparator(s)
    ensures Reads(text, s, Scan(o), Scan(o))
  {
    hide Reads, FirstPiece;
    TextReads(text, s, o);
  }

  /** A bracket, what it encloses, and the bracket that closes it. */
  lemma EnclosedReads(open: char, text: string, close: char, s: char, o: Opened, inside: Opened)
    requires PlainSeparator(s) && (open == '(' || open == '[' || open == '{' || open == '<')
    requires (open == '(' <==> close == ')') && (open == '[' <==> close == ']') && (open == '{' <==> close == '}')
    requires open == '<' <==> close == '>'
    requires Reads(text, s, Scan(Bracketed(open, o)), Scan(inside))
    ensures Reads([open] + (text + [close]), s, Scan(o), Scan(Bracketed(close, inside)))
  {
    hide Reads, FirstPiece;
    BracketReads(open, s, o);
    BracketReads(close, s, inside);
    ReadsThen(text, [close], s, Scan(Bracketed(open, o)), Scan(inside), Scan(Bracketed(close, inside)));
    ReadsThen([open], text + [close], s, Scan(o), Scan(Bracketed(open, o)), Scan(Bracketed(close, inside)));
  }

  lemma SeparatorReads(op: char, s: char, o: Opened)
    requires PlainSeparator(s) && (op == '|' || op == '&' || op == ',' || op == ';')
    requires op == s ==> Hidden(o) || o.angles > 0
    ensures Reads(Separated(op), s, Scan(o), Scan(o))
  {
    hide Reads, FirstPiece;
    OrdinaryReads(op, s, o);
    OrdinaryReads(' ', s, o);
    ReadsThen([' '], [op], s, Scan(o), Scan(o), Scan(o));
    ReadsThen([' '] + [op], [' '], s, Scan(o), Scan(o), Scan(o));
    ReadsThen([op], [' '], s, Scan(o), Scan(o), Scan(o));
  }

  lemma {:induction false} TypeReads(t: TypeExpr, s: char, o: Opened)
    requires WellFormed(t) && PlainSeparator(s) && (Hidden(o) || !Exposed(t, s, o.angles))
    ensures Reads(Print(t), s, Scan(o), Scan(o.(angles := Left(t, o.angles))))
    decreases t, 0
  {
    hide Reads, FirstPiece;
    match t
    case Name(text) => NameReads(text, s, o);
    case Quoted(quote, body) => QuotedReads(quote, body, s, o);
    case Generic(name, arguments) =>
      var within := Bracketed('<', o);
      NameReads(name, s, o);
      TypesRead(arguments, ',', s, within);
      var inside := within.(angles := LeftAll(arguments, within.angles));
      EnclosedReads('<', PrintAll(arguments, ','), '>', s, o, inside);
      ReadsThen(name, ['<'] + (PrintAll(arguments, ',') + ['>']), s, Scan(o), Scan(o), Scan(Bracketed('>', inside)));
    case Tuple(items) =>
      var within := Bracketed('[', o);
      TypesRead(items, ',', s, within);
      EnclosedReads('[', PrintAll(items, ','), ']', s, o, within.(angles := LeftAll(items, o.angles)));
    case Object(fields) =>
      var within := Bracketed('{', o);
      FieldsRead(fields, ';', s, within);
      EnclosedReads('{', PrintFields(fields, ';'), '}', s, o, within.(angles := LeftFields(fields, o.angles)));
    case Function(parameters, result) =>
      var within := Bracketed('(', o);
      FieldsRead(parameters, ',', s, within);
      var inside := within.(angles := LeftFields(parameters, o.angles));
      EnclosedReads('(', PrintFields(parameters, ','), ')', s, o, inside);
      var closed := Bracketed(')', inside);
      TypeReads(result, s, Bracketed('>', closed));
      ArrowReads(PrintFields(parameters, ','), Print(result), s, o, closed, Bracketed('>', closed).(angles := Left(result, Bracketed('>', closed).angles)));
    case Paren(inner) =>
      var within := Bracketed('(', o);
      TypeReads(inner, s, within);
      EnclosedReads('(', Print(inner), ')', s, o, within.(angles := Left(inner, o.angles)));
    case ArrayOf(inner) =>
      TypeReads(inner, s, o);
      var after := o.(angles := Left(inner, o.angles));
      BracketReads('[', s, after);
      BracketReads(']', s, Bracketed('[', after));
      ReadsThen(['['], [']'], s, Scan(after), Scan(Bracketed('[', after)), Scan(after));
      ReadsThen(Print(inner), ['['] + [']'], s, Scan(o), Scan(after), Scan(after));
    case Operator(op, parts) => TypesRead(parts, op, s, o);
    case LineComment(body, inner) =>
      LineReads(body, s, o);
      TypeReads(inner, s, o);
      ReadsThen("//" + (body + "\n"), Print(inner), s, Scan(o), Scan(o), Scan(o.(angles := Left(inner, o.angles))));
      assert Print(t) == "//" + (body + "\n") + Print(inner);
    case BlockComment(body, inner) =>
      BlockReads(body, s, o);
      TypeReads(inner, s, o);
      ReadsThen("/*" + (body + "*/"), Print(inner), s, Scan(o), Scan(o), Scan(o.(angles := Left(inner, o.angles))));
      assert Print(t) == "/*" + (body + "*/") + Print(inner);
  }

  /** The parameters, the arrow, whose bracket counts, and the result. */
  lemma ArrowReads(parameters: string, result: string, s: char, o: Opened, closed: Opened, after: Opened)
    requires PlainSeparator(s) && Reads(['('] + (parameters + [')']), s, Scan(o), Scan(closed))
    requires Reads(result, s, Scan(Bracketed('>', closed)), Scan(after))
    ensures Reads(['('] + (parameters + ([')'] + (" =" + (['>'] + (" " + result))))), s, Scan(o), Scan(after))
  {
    hide Reads, FirstPiece;
    var front, arrowed := ['('] + (parameters + [')']), Bracketed('>', closed);
    TextReads(" =", s, closed);
    BracketReads('>', s, closed);
    TextReads(" ", s, arrowed);
    ReadsThen(" ", result, s, Scan(arrowed), Scan(arrowed), Scan(after));
    ReadsThen(['>'], " " + result, s, Scan(closed), Scan(arrowed), Scan(after));
    ReadsThen(" =", ['>'] + (" " + result), s, Scan(closed), Scan(closed), Scan(after));
    ReadsThen(front, " =" + (['>'] + (" " + result)), s, Scan(o), Scan(closed), Scan(after));
    assert front + (" =" + (['>'] + (" " + result))) == ['('] + (parameters + ([')'] + (" =" + (['>'] + (" " + result)))));
  }

  lemma {:induction false} TypesRead(ts: seq<TypeExpr>, op: char, s: char, o: Opened)
    requires AllWellFormed(ts) && PlainSeparator(s) && (op == '|' || op == '&' || op == ',')
    requires Hidden(o) || !ExposedAll(ts, op, s, o.angles)
    ensures Reads(PrintAll(ts, op), s, Scan(o), Scan(o.(angles := LeftAll(ts, o.angles))))
    decreases ts, 1
  {
    hide Reads, FirstPiece, Separated;
    if ts == [] {
      ReadsNothing(s, Scan(o));
    } else {
      var first := o.(angles := Left(ts[0], o.angles));
      TypeReads(ts[0], s, o);
      if |ts| > 1 {
        SeparatorReads(op, s, first);
        TypesRead(ts[1..], op, s, first);
        var last := Scan(o.(angles := LeftAll(ts, o.angles)));
        ReadsThen(Separated(op), PrintAll(ts[1..], op), s, Scan(first), Scan(first), last);
        ReadsThen(Print(ts[0]), Separated(op) + PrintAll(ts[1..], op), s, Scan(o), Scan(first), last);
      }
    }
  }

  lemma {:induction false} FieldReads(f: Field, s: char, o: Opened)
    requires NameText(f.name) && WellFormed(f.fieldType) && PlainSeparator(s) && Hidden(o)
    ensures Reads(PrintField(f), s, Scan(o), Scan(o.(angles := Left(f.fieldType, o.angles))))
    decreases f, 1
  {
    hide Reads, FirstPiece;
    var next := Scan(o.(angles := Left(f.fieldType, o.angles)));
    NameReads(f.name, s, o);
    TextReads(": ", s, o);
    TypeReads(f.fieldType, s, o);
    ReadsThen(": ", Print(f.fieldType), s, Scan(o), Scan(o), next);
    ReadsThen(f.name, ": " + Print(f.fieldType), s, Scan(o), Scan(o), next);
  }

  /** Fields only stand inside brackets. */
  lemma {:induction false} FieldsRead(fs: seq<Field>, op: char, s: char, o: Opened)
    requires FieldsWellFormed(fs) && PlainSeparator(s) && (op == ',' || op == ';') && Hidden(o)
    ensures Reads(PrintFields(fs, op), s, Scan(o), Scan(o.(angles := LeftFields(fs, o.angles))))
    decreases fs, 1
  {
    hide Reads, FirstPiece, Separated;
    if fs == [] {
      ReadsNothing(s, Scan(o));
    } else {
      var first := o.(angles := Left(fs[0].fieldType, o.angles));
      FieldReads(fs[0], s, o);
      if |fs| > 1 {
        SeparatorReads(op, s, first);
        FieldsRead(fs[1..], op, s, first);
        var last := Scan(o.(angles := LeftFields(fs, o.angles)));
        ReadsThen(Separated(op), PrintFields(fs[1..], op), s, Scan(first), Scan(first), last);
        ReadsThen(PrintField(fs[0]), Separated(op) + PrintFields(fs[1..], op), s, Scan(o), Scan(first), last);
      }
    }
  }

  // ---- Types that are cut.

  /** The text is cut within, whatever follows. */
  ghost predicate Cuts(text: string, s: char, st: TypeScan) {
    forall tail :: FirstPiece(text + tail, s, st).1.Some? && |FirstPiece(text + tail, s, st).0| < |text|
  }

  lemma CutsAt(text: string, s: char, st: TypeScan, tail: string)
    requires Cuts(text, s, st)
    ensures FirstPiece(text + tail, s, st).1.Some? && |FirstPiece(text + tail, s, st).0| < |text|
  {
    hide FirstPiece;
  }

  lemma CutsBehind(a: string, b: string, s: char, st: TypeScan, mid: TypeScan)
    requires Reads(a, s, st, mid) && Cuts(b, s, mid)
    ensures Cuts(a + b, s, st)
  {
    hide FirstPiece, Reads;
    forall tail ensures FirstPiece(a + b + tail, s, st).1.Some? && |FirstPiece(a + b + tail, s, st).0| < |a + b| {
      assert a + b + tail == a + (b + tail);
      ReadsAt(a, s, st, mid, b + tail);
      CutsAt(b, s, mid, tail);
    }
  }

  lemma CutsBefore(a: string, b: string, s: char, st: TypeScan)
    requires Cuts(a, s, st)
    ensures Cuts(a + b, s, st)
  {
    hide FirstPiece;
    forall tail ensures FirstPiece(a + b + tail, s, st).1.Some? && |FirstPiece(a + b + tail, s, st).0| < |a + b| {
      assert a + b + tail == a + (b + tail);
      CutsAt(a, s, st, b + tail);
    }
  }

  lemma SeparatorAt(s: char, o: Opened, tail: string)
    requires PlainSeparator(s) && !Hidden(o) && o.angles == 0
    ensures FirstPiece([s] + tail, s, Scan(o)) == ("", Some(tail))
  {
    var text := [s] + tail;
    assert Turn(Scan(o), text, s) == (Scan(o), 1, true);
    assert text[..0] == "" && text[1..] == tail;
  }

  lemma SeparatorCuts(s: char, o: Opened)
    requires PlainSeparator(s) && !Hidden(o) && o.angles == 0
    ensures Cuts([s], s, Scan(o))
  {
    hide FirstPiece;
    forall tail ensures FirstPiece([s] + tail, s, Scan(o)).1.Some? && |FirstPiece([s] + tail, s, Scan(o)).0| < |[s]| {
      SeparatorAt(s, o, tail);
    }
  }

  lemma SeparatedCuts(op: char, o: Opened)
    requires PlainSeparator(op) && !Hidden(o) && o.angles == 0
    ensures Cuts(Separated(op), op, Scan(o))
  {
    hide Reads, Cuts, FirstPiece;
    SeparatorCuts(op, o);
    OrdinaryReads(' ', op, o);
    CutsBehind([' '], [op], op, Scan(o), Scan(o));
    CutsBefore([' '] + [op], [' '], op, Scan(o));
    CutsBefore([op], [' '], op, Scan(o));
  }

  /** What is exposed is cut. */
  lemma {:induction false} ExposedCuts(t: TypeExpr, s: char, o: Opened)
    requires WellFormed(t) && PlainSeparator(s) && !Hidden(o) && Exposed(t, s, o.angles)
    ensures Cuts(Print(t), s, Scan(o))
    decreases t, 0
  {
    hide Reads, Cuts, FirstPiece;
    match t
    case Generic(name, arguments) =>
      var within := Bracketed('<', o);
      NameReads(name, s, o);
      BracketReads('<', s, o);
      AllCut(arguments, ',', s, within);
      CutsBefore(PrintAll(arguments, ','), ['>'], s, Scan(within));
      CutsBehind(['<'], PrintAll(arguments, ',') + ['>'], s, Scan(o), Scan(within));
      CutsBehind(name, ['<'] + (PrintAll(arguments, ',') + ['>']), s, Scan(o), Scan(o));
    case Function(parameters, result) =>
      var within := Bracketed('(', o);
      FieldsRead(parameters, ',', s, within);
      var inside := within.(angles := LeftFields(parameters, o.angles));
      EnclosedReads('(', PrintFields(parameters, ','), ')', s, o, inside);
      var closed := Bracketed(')', inside);
      ExposedCuts(result, s, Bracketed('>', closed));
      ArrowCuts(PrintFields(parameters, ','), Print(result), s, o, closed);
    case ArrayOf(inner) =>
      ExposedCuts(inner, s, o);
      CutsBefore(Print(inner), ['['] + [']'], s, Scan(o));
    case Operator(op, parts) => AllCut(parts, op, s, o);
    case LineComment(body, inner) =>
      LineReads(body, s, o);
      ExposedCuts(inner, s, o);
      CutsBehind("//" + (body + "\n"), Print(inner), s, Scan(o), Scan(o));
      assert Print(t) == "//" + (body + "\n") + Print(inner);
    case BlockComment(body, inner) =>
      BlockReads(body, s, o);
      ExposedCuts(inner, s, o);
      CutsBehind("/*" + (body + "*/"), Print(inner), s, Scan(o), Scan(o));
      assert Print(t) == "/*" + (body + "*/") + Print(inner);
  }

  lemma ArrowCuts(parameters: string, result: string, s: char, o: Opened, closed: Opened)
    requires PlainSeparator(s) && Reads(['('] + (parameters + [')']), s, Scan(o), Scan(closed))
    requires Cuts(result, s, Scan(Bracketed('>', closed)))
    ensures Cuts(['('] + (parameters + ([')'] + (" =" + (['>'] + (" " + result))))), s, Scan(o))
  {
    hide Reads, Cuts, FirstPiece;
    var front, arrowed := ['('] + (parameters + [')']), Bracketed('>', closed);
    TextReads(" =", s, closed);
    BracketReads('>', s, closed);
    TextReads(" ", s, arrowed);
    CutsBehind(" ", result, s, Scan(arrowed), Scan(arrowed));
    CutsBehind(['>'], " " + result, s, Scan(closed), Scan(arrowed));
    CutsBehind(" =", ['>'] + (" " + result), s, Scan(closed), Scan(closed));
    CutsBehind(front, " =" + (['>'] + (" " + result)), s, Scan(o), Scan(closed));
    assert front + (" =" + (['>'] + (" " + result))) == ['('] + (parameters + ([')'] + (" =" + (['>'] + (" " + result)))));
  }

  lemma {:induction false} AllCut(ts: seq<TypeExpr>, op: char, s: char, o: Opened)
    requires AllWellFormed(ts) && PlainSeparator(s) && (op == '|' || op == '&' || op == ',')
    requires !Hidden(o) && ExposedAll(ts, op, s, o.angles)
    ensures Cuts(PrintAll(ts, op), s, Scan(o))
    decreases ts, 1
  {
    hide Reads, Cuts, FirstPiece, Separated;
    var first := o.(angles := Left(ts[0], o.angles));
    if Exposed(ts[0], s, o.angles) {
      ExposedCuts(ts[0], s, o);
      if |ts| > 1 {
        CutsBefore(Print(ts[0]), Separated(op) + PrintAll(ts[1..], op), s, Scan(o));
      }
    } else {
      TypeReads(ts[0], s, o);
      if op == s && first.angles == 0 {
        SeparatedCuts(op, first);
        CutsBefore(Separated(op), PrintAll(ts[1..], op), s, Scan(first));
      } else {
        SeparatorReads(op, s, first);
        AllCut(ts[1..], op, s, first);
        CutsBehind(Separated(op), PrintAll(ts[1..], op), s, Scan(first), Scan(first));
      }
      CutsBehind(Print(ts[0]), Separated(op) + PrintAll(ts[1..], op), s, Scan(o), Scan(first));
    }
  }

  // ---- Splitting printed lists.

  lemma {:induction false} LeftStays(t: TypeExpr, n: nat)
    ensures Left(t, n) <= n
    decreases t, 0
  {
    match t
    case Generic(_, arguments) => LeftAllStays(arguments, n + 1);
    case Tuple(items) => LeftAllStays(items, n);
    case Object(fields) => LeftFieldsStays(fields, n);
    case Function(parameters, result) =>
      LeftFieldsStays(parameters, n);
      LeftStays(result, Less(LeftFields(parameters, n)));
    case Paren(inner) => LeftStays(inner, n);
    case ArrayOf(inner) => LeftStays(inner, n);
    case Operator(_, parts) => LeftAllStays(parts, n);
    case LineComment(_, inner) => LeftStays(inner, n);
    case BlockComment(_, inner) => LeftStays(inner, n);
    case _ =>
  }

  lemma {:induction false} LeftAllStays(ts: seq<TypeExpr>, n: nat)
    ensures LeftAll(ts, n) <= n
    decreases ts, 1
  {
    if ts != [] {
      LeftStays(ts[0], n);
      LeftAllStays(ts[1..], Left(ts[0], n));
    }
  }

  lemma {:induction false} LeftFieldsStays(fs: seq<Field>, n: nat)
    ensures LeftFields(fs, n) <= n
    decreases fs, 1
  {
    if fs != [] {
      LeftStays(fs[0].fieldType, n);
      LeftFieldsStays(fs[1..], Left(fs[0].fieldType, n));
    }
  }

  predicate Edged(text: string) {
    text != "" && Trimmed(text)
  }

  lemma EdgedAround(a: string, b: string, c: string)
    requires a != "" && c != "" && !IsSpace(a[0]) && !IsSpace(c[|c| - 1])
    ensures Edged(a + (b + c))
  {
    var t := a + (b + c);
    assert t[0] == a[0] && t[|t| - 1] == c[|c| - 1];
  }

  lemma FunctionEdged(parameters: string, result: string)
    requires Edged(result)
    ensures Edged(['('] + (parameters + ([')'] + (" =" + (['>'] + (" " + result))))))
  {
    var text := ['('] + (parameters + ([')'] + (" =" + (['>'] + (" " + result)))));
    assert text[0] == '(' && text[|text| - 1] == result[|result| - 1];
  }

  lemma CommentEdged(open: string, body: string, close: string, inner: string)
    requires Edged(open) && Edged(inner)
    ensures Edged(open + (body + (close + inner)))
  {
    var text := open + (body + (close + inner));
    assert text[0] == open[0] && text[|text| - 1] == inner[|inner| - 1];
  }

  lemma {:induction false} PrintEdged(t: TypeExpr)
    requires WellFormed(t)
    ensures Edged(Print(t))
    decreases t, 0
  {
    match t
    case Name(text) =>
    case Quoted(quote, body) => EdgedAround([quote], body, [quote]);
    case Generic(name, arguments) => EdgedAround(name, ['<'] + PrintAll(arguments, ','), ['>']);
      assert name + (['<'] + PrintAll(arguments, ',') + ['>']) == Print(t);
    case Tuple(items) => EdgedAround(['['], PrintAll(items, ','), [']']);
    case Object(fields) => EdgedAround(['{'], PrintFields(fields, ';'), ['}']);
    case Function(parameters, result) =>
      PrintEdged(result);
      FunctionEdged(PrintFields(parameters, ','), Print(result));
    case Paren(inner) => EdgedAround(['('], Print(inner), [')']);
    case ArrayOf(inner) =>
      PrintEdged(inner);
      EdgedAround(Print(inner), ['['], [']']);
    case Operator(op, parts) => AllEdged(parts, op);
    case LineComment(body, inner) =>
      PrintEdged(inner);
      CommentEdged("//", body, "\n", Print(inner));
    case BlockComment(body, inner) =>
      PrintEdged(inner);
      CommentEdged("/*", body, "*/", Print(inner));
  }

  lemma {:induction false} AllEdged(ts: seq<TypeExpr>, op: char)
    requires AllWellFormed(ts) && ts != []
    ensures Edged(PrintAll(ts, op))
    decreases ts, 1
  {
    PrintEdged(ts[0]);
    if |ts| > 1 {
      AllEdged(ts[1..], op);
      EdgedAround(Print(ts[0]), Separated(op), PrintAll(ts[1..], op));
    }
  }

  function Prints(ts: seq<TypeExpr>): seq<string> {
    seq(|ts|, i requires 0 <= i < |ts| => Print(ts[i]))
  }

  const OUTSIDE := Opened(0, 0, 0, 0)

  /** The first type is read whole and the text behind its separator starts afresh. */
  lemma HeadSplits(t: TypeExpr, s: char, rest: string)
    requires WellFormed(t) && PlainSeparator(s) && !Exposed(t, s, 0)
    ensures Split(Print(t) + (Separated(s) + rest), s) == [Print(t)] + Split([' '] + rest, s)
  {
    hide Reads, Split;
    var u := Print(t);
    TypeReads(t, s, OUTSIDE);
    LeftStays(t, 0);
    ReadsAt(u, s, Scan(OUTSIDE), Scan(OUTSIDE), Separated(s) + rest);
    SeparatedSplits(s, rest);
    PrintEdged(t);
    SplitOf(u + (Separated(s) + rest), s, u, if s == ',' then "" else " ", [' '] + rest);
  }

  lemma SeparatedSplits(s: char, rest: string)
    requires PlainSeparator(s)
    ensures FirstPiece(Separated(s) + rest, s, Scan(OUTSIDE)) == (if s == ',' then "" else " ", Some([' '] + rest))
  {
    hide Reads, FirstPiece;
    var tail := [' '] + rest;
    SeparatorAt(s, OUTSIDE, tail);
    if s == ',' {
      assert Separated(s) + rest == [s] + tail;
    } else {
      OrdinaryReads(' ', s, OUTSIDE);
      ReadsAt([' '], s, Scan(OUTSIDE), Scan(OUTSIDE), [s] + tail);
      assert Separated(s) + rest == [' '] + ([s] + tail);
      assert [' '] + "" == " ";
    }
  }

  lemma SplitOf(text: string, s: char, u: string, pad: string, rest: string)
    requires FirstPiece(text, s, NEUTRAL) == (u + pad, Some(rest)) && Edged(u) && AllSpace(pad)
    ensures Split(text, s) == [u] + Split(rest, s)
  {
    TrimPadding("", u, pad);
    assert "" + u + pad == u + pad;
  }

  lemma LastSplits(t: TypeExpr, s: char)
    requires WellFormed(t) && PlainSeparator(s) && !Exposed(t, s, 0)
    ensures Split(Print(t), s) == [Print(t)]
  {
    hide Reads;
    var u := Print(t);
    TypeReads(t, s, OUTSIDE);
    LeftStays(t, 0);
    ReadsAt(u, s, Scan(OUTSIDE), Scan(OUTSIDE), "");
    assert u + "" == u;
    PrintEdged(t);
    TrimmedFixed(u);
  }

  /** A type that is cut does not come out as it was printed. */
  lemma CutDiffers(t: TypeExpr, s: char, rest: string)
    requires WellFormed(t) && PlainSeparator(s) && Exposed(t, s, 0)
    ensures Split(Print(t) + rest, s)[0] != Print(t)
  {
    ExposedCuts(t, s, OUTSIDE);
    CutsAt(Print(t), s, Scan(OUTSIDE), rest);
    var raw := FirstPiece(Print(t) + rest, s, NEUTRAL).0;
    TrimLeftSuffix(raw);
    TrimRightPrefix(TrimLeft(raw));
  }

  lemma SpacedSplit(text: string, s: char)
    requires PlainSeparator(s)
    ensures Split([' '] + text, s) == Split(text, s)
  {
    hide Reads;
    OrdinaryReads(' ', s, OUTSIDE);
    ReadsAt([' '], s, Scan(OUTSIDE), Scan(OUTSIDE), text);
    TrimSkipsSpace(FirstPiece(text, s, NEUTRAL).0);
  }

  /** Splitting gives printed types back exactly when none of them shows the separator outside its
      brackets. */
  lemma {:induction false} SplitTypesIff(ts: seq<TypeExpr>, s: char)
    requires ts != [] && AllWellFormed(ts) && PlainSeparator(s)
    ensures Split(PrintAll(ts, s), s) == Prints(ts) <==> forall i :: 0 <= i < |ts| ==> !Exposed(ts[i], s, 0)
  {
    hide Split, Exposed, Print, WellFormed;
    if Exposed(ts[0], s, 0) {
      CutDiffers(ts[0], s, if |ts| == 1 then "" else Separated(s) + PrintAll(ts[1..], s));
      assert Print(ts[0]) + "" == Print(ts[0]);
      assert Prints(ts)[0] == Print(ts[0]);
    } else if |ts| == 1 {
      LastSplits(ts[0], s);
      assert Prints(ts) == [Print(ts[0])];
    } else {
      HeadSplits(ts[0], s, PrintAll(ts[1..], s));
      SpacedSplit(PrintAll(ts[1..], s), s);
      SplitTypesIff(ts[1..], s);
      assert Prints(ts) == [Print(ts[0])] + Prints(ts[1..]);
      TailsAgree(Print(ts[0]), Split(PrintAll(ts[1..], s), s), Prints(ts[1..]));
      assert forall i :: 0 <= i < |ts[1..]| ==> ts[1..][i] == ts[i + 1];
      assert (forall i :: 0 <= i < |ts| ==> !Exposed(ts[i], s, 0)) <==> forall i :: 0 <= i < |ts[1..]| ==> !Exposed(ts[1..][i], s, 0);
    }
  }

  lemma TailsAgree(x: string, a: seq<string>, b: seq<string>)
    ensures [x] + a == [x] + b <==> a == b
  {
    assert ([x] + a)[1..] == a && ([x] + b)[1..] == b;
  }

  // ---- Types whose generics hold no arrows.

  predicate Arrowless(t: TypeExpr)
    decreases t, 0
  {
    match t
    case Generic(_, arguments) => AllArrowless(arguments)
    case Tuple(items) => AllArrowless(items)
    case Object(fields) => FieldsArrowless(fields)
    case Function(_, _) => false
    case Paren(inner) => Arrowless(inner)
    case ArrayOf(inner) => Arrowless(inner)
    case Operator(_, parts) => AllArrowless(parts)
    case LineComment(_, inner) => Arrowless(inner)
    case BlockComment(_, inner) => Arrowless(inner)
    case _ => true
  }

  predicate AllArrowless(ts: seq<TypeExpr>)
    decreases ts, 1
  {
    ts != [] ==> Arrowless(ts[0]) && AllArrowless(ts[1..])
  }

  predicate FieldsArrowless(fs: seq<Field>)
    decreases fs, 1
  {
    fs != [] ==> Arrowless(fs[0].fieldType) && FieldsArrowless(fs[1..])
  }

  /** What the type shows outside its own brackets, wherever it stands. */
  predicate Guarded(t: TypeExpr)
    decreases t, 0
  {
    match t
    case Generic(_, arguments) => AllArrowless(arguments)
    case Function(_, result) => Guarded(result)
    case ArrayOf(inner) => Guarded(inner)
    case Operator(_, parts) => AllGuarded(parts)
    case LineComment(_, inner) => Guarded(inner)
    case BlockComment(_, inner) => Guarded(inner)
    case _ => true
  }

  predicate AllGuarded(ts: seq<TypeExpr>)
    decreases ts, 1
  {
    ts != [] ==> Guarded(ts[0]) && AllGuarded(ts[1..])
  }

  /** A union, an intersection or a function that returns one, without parentheses. */
  predicate Bare(t: TypeExpr, s: char)
    decreases t, 0
  {
    match t
    case Function(_, result) => Bare(result, s)
    case ArrayOf(inner) => Bare(inner, s)
    case Operator(op, parts) => (op == s && |parts| > 1) || AnyBare(parts, s)
    case LineComment(_, inner) => Bare(inner, s)
    case BlockComment(_, inner) => Bare(inner, s)
    case _ => false
  }

  predicate AnyBare(ts: seq<TypeExpr>, s: char)
    decreases ts, 1
  {
    ts != [] && (Bare(ts[0], s) || AnyBare(ts[1..], s))
  }

  /** Without arrows the scan sees the brackets that are there. */
  lemma {:induction false} ArrowlessStays(t: TypeExpr, s: char, n: nat)
    requires Arrowless(t)
    ensures Left(t, n) == n && (n > 0 ==> !Exposed(t, s, n))
    decreases t, 0
  {
    match t
    case Generic(_, arguments) => AllArrowlessStay(arguments, ',', s, n + 1);
    case Tuple(items) => AllArrowlessStay(items, ',', s, n);
    case Object(fields) => FieldsArrowlessStay(fields, n);
    case Paren(inner) => ArrowlessStays(inner, s, n);
    case ArrayOf(inner) => ArrowlessStays(inner, s, n);
    case Operator(op, parts) => AllArrowlessStay(parts, op, s, n);
    case LineComment(_, inner) => ArrowlessStays(inner, s, n);
    case BlockComment(_, inner) => ArrowlessStays(inner, s, n);
    case _ =>
  }

  lemma {:induction false} AllArrowlessStay(ts: seq<TypeExpr>, op: char, s: char, n: nat)
    requires AllArrowless(ts)
    ensures LeftAll(ts, n) == n && (n > 0 ==> !ExposedAll(ts, op, s, n))
    decreases ts, 1
  {
    if ts != [] {
      ArrowlessStays(ts[0], s, n);
      AllArrowlessStay(ts[1..], op, s, n);
    }
  }

  lemma {:induction false} FieldsArrowlessStay(fs: seq<Field>, n: nat)
    requires FieldsArrowless(fs)
    ensures LeftFields(fs, n) == n
    decreases fs, 1
  {
    if fs != [] {
      ArrowlessStays(fs[0].fieldType, ',', n);
      FieldsArrowlessStay(fs[1..], n);
    }
  }

  lemma {:induction false} GuardedExposed(t: TypeExpr, s: char)
    requires Guarded(t)
    ensures Exposed(t, s, 0) <==> Bare(t, s)
    decreases t, 0
  {
    match t
    case Generic(_, arguments) => AllArrowlessStay(arguments, ',', s, 1);
    case Function(parameters, result) =>
      LeftFieldsStays(parameters, 0);
      GuardedExposed(result, s);
    case ArrayOf(inner) => GuardedExposed(inner, s);
    case Operator(op, parts) => AllGuardedExposed(parts, op, s);
    case LineComment(_, inner) => GuardedExposed(inner, s);
    case BlockComment(_, inner) => GuardedExposed(inner, s);
    case _ =>
  }

  lemma {:induction false} AllGuardedExposed(ts: seq<TypeExpr>, op: char, s: char)
    requires AllGuarded(ts)
    ensures ExposedAll(ts, op, s, 0) <==> (op == s && |ts| > 1) || AnyBare(ts, s)
    decreases ts, 1
  {
    if ts != [] {
      GuardedExposed(ts[0], s);
      LeftStays(ts[0], 0);
      AllGuardedExposed(ts[1..], op, s);
    }
  }

  /** Types whose generics hold no arrows come out as they were printed exactly when none of them is
      a bare union or intersection of the separator, whatever stands inside their brackets. */
  lemma GuardedSplitIff(ts: seq<TypeExpr>, s: char)
    requires ts != [] && AllWellFormed(ts) && PlainSeparator(s) && forall i :: 0 <= i < |ts| ==> Guarded(ts[i])
    ensures Split(PrintAll(ts, s), s) == Prints(ts) <==> forall i :: 0 <= i < |ts| ==> !Bare(ts[i], s)
  {
    hide Split, Exposed, Print, WellFormed, Guarded, Bare;
    SplitTypesIff(ts, s);
    forall i | 0 <= i < |ts| ensures Exposed(ts[i], s, 0) <==> Bare(ts[i], s) {
      GuardedExposed(ts[i], s);
    }
  }

  /** Of a generic with an arrow in its first argument, the other arguments are split off. */
  lemma ArrowInGeneric(name: string, parameters: seq<Field>, result: TypeExpr, rest: seq<TypeExpr>)
    requires NameText(name) && FieldsWellFormed(parameters) && WellFormed(result) && AllWellFormed(rest) && rest != []
    requires FieldsArrowless(parameters) && Arrowless(result)
    ensures var t := Generic(name, [Function(parameters, result)] + rest);
            Exposed(t, ',', 0) && Split(Print(t), ',') != [Print(t)]
  {
    hide Split, Print;
    var arrow := Function(parameters, result);
    var arguments := [arrow] + rest;
    var t := Generic(name, arguments);
    FieldsArrowlessStay(parameters, 1);
    ArrowlessStays(result, ',', 0);
    assert Left(arrow, 1) == 0;
    assert |arguments| > 1 && arguments[0] == arrow;
    assert ExposedAll(arguments, ',', ',', 1);
    assert forall i :: 0 <= i < |arguments| ==> WellFormed(arguments[i]);
    CutDiffers(t, ',', "");
    assert Print(t) + "" == Print(t);
  }
}
