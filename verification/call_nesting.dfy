/** Properly nested code, and what the call scanner makes of every prefix of it: the innermost
    unclosed call, with the number of commas directly in it, and whether the position stands in
    a literal or a comment (internal/admin/vue_scope_calls.go:61-202, 366-404 and 435-520). */
module CallNesting {
  import opened AdminModel
  import opened TextScan
  import opened CallScanner

  /** Code with matching delimiters. `Slash` is a division sign; comments and literals hold any
      text that does not end them. */
  datatype Piece =
    | Plain(c: char)
    | Comma
    | Slash
    | Quoted(quote: char, body: string)
    | LineComment(body: string)
    | BlockComment(body: string)
    | Group(open: char, inner: seq<Piece>)
    | Template(text: string, parts: seq<Part>)

  /** A `${}` with its code, and the template text behind it. */
  datatype Part = Part(code: seq<Piece>, text: string)

  function CloserOf(open: char): char {
    if open == '(' then ')' else if open == '[' then ']' else '}'
  }

  function Print(piece: Piece): string
    decreases piece, 0
  {
    match piece
    case Plain(c) => [c]
    case Comma => ","
    case Slash => "/"
    case Quoted(quote, body) => [quote] + (body + [quote])
    case LineComment(body) => "//" + (body + "\n")
    case BlockComment(body) => "/*" + (body + "*/")
    case Group(open, inner) => [open] + (PrintAll(inner) + [CloserOf(open)])
    case Template(text, parts) => "`" + (text + (PrintParts(parts) + "`"))
  }

  function PrintAll(code: seq<Piece>): string
    decreases code, 1
  {
    if code == [] then "" else Print(code[0]) + PrintAll(code[1..])
  }

  function PrintPart(part: Part): string
    decreases part, 2
  {
    "${" + (PrintAll(part.code) + ("}" + part.text))
  }

  function PrintParts(parts: seq<Part>): string
    decreases parts, 3
  {
    if parts == [] then "" else PrintPart(parts[0]) + PrintParts(parts[1..])
  }

  predicate PlainChar(c: char) {
    !IsQuote(c) && c != '/' && c != ',' && !Opens(c) && !Closes(c)
  }

  /** The text of a quote, read from inside it, does not end the quote. */
  predicate QuoteBody(body: string, quote: char, escaped: bool)
    decreases |body|
  {
    if body == "" then !escaped
    else if escaped then QuoteBody(body[1..], quote, false)
    else body[0] != quote && QuoteBody(body[1..], quote, body[0] == '\\')
  }

  /** The text of a comment has no end of its own. */
  predicate BlockBody(body: string) {
    forall i :: 0 <= i < |body| && body[i] == '*' ==> (if i + 1 < |body| then body[i + 1] != '/' else true)
  }

  /** Template text: escapes are whole, and neither a backtick nor `${` is unescaped. */
  predicate TextBody(text: string)
    decreases |text|
  {
    if text == "" then true
    else if text[0] == '\\' then |text| >= 2 && TextBody(text[2..])
    else text[0] != '`' && !(text[0] == '$' && |text| >= 2 && text[1] == '{') && TextBody(text[1..])
  }

  /** The character behind something: the first of what is printed next. */
  function FirstChar(text: string, next: char): char {
    if text == "" then next else text[0]
  }

  /** A piece in front of the character `next`: only a division sign minds what follows. */
  predicate WellFormed(piece: Piece, next: char)
    decreases piece, 0
  {
    match piece
    case Plain(c) => PlainChar(c)
    case Comma => true
    case Slash => next != '/' && next != '*'
    case Quoted(quote, body) => (quote == '\'' || quote == '"') && QuoteBody(body, quote, false)
    case LineComment(body) => '\n' !in body
    case BlockComment(body) => BlockBody(body)
    case Group(open, inner) => Opens(open) && AllWellFormed(inner, CloserOf(open))
    case Template(text, parts) => TextBody(text) && PartsWellFormed(parts)
  }

  predicate AllWellFormed(code: seq<Piece>, next: char)
    decreases code, 1
  {
    code != [] ==> WellFormed(code[0], FirstChar(PrintAll(code[1..]), next)) && AllWellFormed(code[1..], next)
  }

  predicate PartsWellFormed(parts: seq<Part>)
    decreases parts, 3
  {
    parts != [] ==> AllWellFormed(parts[0].code, '}') && TextBody(parts[0].text) && PartsWellFormed(parts[1..])
  }

  /** The commas that stand directly in the code. */
  function Commas(code: seq<Piece>): nat {
    if code == [] then 0 else (if code[0].Comma? then 1 else 0) + Commas(code[1..])
  }

  // ---- Scanning.

  predicate Holds(content: string, i: nat, part: string) {
    i + |part| <= |content| && forall k :: 0 <= k < |part| ==> content[i + k] == part[k]
  }

  lemma HoldsParts(content: string, i: nat, a: string, b: string)
    requires Holds(content, i, a + b)
    ensures Holds(content, i, a) && Holds(content, i + |a|, b)
  {
    forall k | 0 <= k < |a|
      ensures content[i + k] == a[k]
    {
      assert (a + b)[k] == a[k];
    }
    forall k | 0 <= k < |b|
      ensures content[i + |a| + k] == b[k]
    {
      assert (a + b)[|a| + k] == b[k];
    }
  }

  lemma HoldsAt(content: string, i: nat, part: string, k: nat)
    requires Holds(content, i, part) && k < |part|
    ensures content[i + k] == part[k]
  {
  }

  function CharAt(content: string, i: nat): char {
    if i < |content| then content[i] else '\0'
  }

  lemma HoldsFirst(content: string, i: nat, part: string, next: char)
    requires Holds(content, i, part) && next == CharAt(content, i + |part|)
    ensures CharAt(content, i) == FirstChar(part, next)
  {
    if part != "" {
      HoldsAt(content, i, part, 0);
    }
  }

  lemma HoldsExtends(content: string, i: nat, part: string)
    requires Holds(content, i, part)
    ensures content[..i + |part|] == content[..i] + part
  {
  }

  /** The scanner stands in code: no literal, no comment, no template text. */
  predicate InCode(st: Scan) {
    && !st.lex.InLiteralOrComment() && !st.lex.escaped && st.lex.quote == '\0' && st.clean
    && (st.lex.templates != [] ==> st.lex.templates[|st.lex.templates| - 1] > 0)
  }

  /** From position i the run goes on at position j in another state. */
  ghost predicate Reaches(st: Scan, content: string, i: nat, next: Scan, j: nat) {
    ScanRun(st, content, i) == ScanRun(next, content, j)
  }

  lemma ReachesThen(st: Scan, content: string, i: nat, mid: Scan, j: nat, next: Scan, k: nat)
    requires Reaches(st, content, i, mid, j) && Reaches(mid, content, j, next, k)
    ensures Reaches(st, content, i, next, k)
  {
  }

  lemma OneStep(st: Scan, content: string, i: nat)
    requires i < |content|
    ensures Reaches(st, content, i, ScanStep(st, content, i).0, i + ScanStep(st, content, i).1)
  {
  }

  /** The frame on top counts the commas seen. */
  function CountedBy(stack: seq<Frame>, n: nat): seq<Frame> {
    if stack != [] && stack[|stack| - 1].delimiter == '(' && stack[|stack| - 1].call.Some?
    then stack[|stack| - 1 := stack[|stack| - 1].(commas := stack[|stack| - 1].commas + n)]
    else stack
  }

  function After(st: Scan, n: nat): Scan {
    st.(stack := CountedBy(st.stack, n))
  }

  lemma AfterZero(st: Scan)
    ensures After(st, 0) == st
  {
  }

  lemma AfterSum(st: Scan, m: nat, n: nat)
    ensures After(After(st, m), n) == After(st, m + n)
  {
  }

  lemma AfterInCode(st: Scan, n: nat)
    requires InCode(st)
    ensures InCode(After(st, n))
  {
  }

  lemma {:induction false} QuoteReaches(st: Scan, content: string, i: nat, body: string)
    requires st.lex.quoted && !st.lex.lineComment && !st.lex.blockComment
    requires QuoteBody(body, st.lex.quote, st.lex.escaped) && Holds(content, i, body + [st.lex.quote])
    requires st.lex.quote != '\\'
    ensures Reaches(st, content, i, st.(lex := st.lex.(quoted := false, quote := '\0', escaped := false)), i + |body| + 1)
    decreases |body|
  {
    var text := body + [st.lex.quote];
    HoldsAt(content, i, text, 0);
    OneStep(st, content, i);
    if body != "" {
      var next := ScanStep(st, content, i).0;
      assert text == [body[0]] + (body[1..] + [st.lex.quote]);
      HoldsParts(content, i, [body[0]], body[1..] + [st.lex.quote]);
      QuoteReaches(next, content, i + 1, body[1..]);
    }
  }

  lemma {:induction false} LineReaches(st: Scan, content: string, i: nat, body: string)
    requires st.lex.lineComment && '\n' !in body && Holds(content, i, body + "\n")
    ensures Reaches(st, content, i, st.(lex := st.lex.(lineComment := false)), i + |body| + 1)
    decreases |body|
  {
    var text := body + "\n";
    HoldsAt(content, i, text, 0);
    OneStep(st, content, i);
    if body != "" {
      assert body[0] in body && text == [body[0]] + (body[1..] + "\n");
      HoldsParts(content, i, [body[0]], body[1..] + "\n");
      LineReaches(st, content, i + 1, body[1..]);
    }
  }

  lemma {:induction false} BlockReaches(st: Scan, content: string, i: nat, body: string)
    requires st.lex.blockComment && !st.lex.lineComment && BlockBody(body) && Holds(content, i, body + "*/")
    ensures Reaches(st, content, i, st.(lex := st.lex.(blockComment := false)), i + |body| + 2)
    decreases |body|
  {
    var text := body + "*/";
    HoldsAt(content, i, text, 0);
    HoldsAt(content, i, text, 1);
    OneStep(st, content, i);
    if body != "" {
      assert text == [body[0]] + (body[1..] + "*/");
      HoldsParts(content, i, [body[0]], body[1..] + "*/");
      forall k | 0 <= k < |body[1..]| && body[1..][k] == '*'
        ensures if k + 1 < |body[1..]| then body[1..][k + 1] != '/' else true
      {
        assert body[k + 1] == '*';
      }
      BlockReaches(st, content, i + 1, body[1..]);
    }
  }

  /** The scanner stands in template text. */
  predicate InTemplate(st: Scan) {
    st.lex.InText() && !st.lex.quoted && !st.lex.lineComment && !st.lex.blockComment
  }

  /** Template text is passed when what follows cannot join it to `${`. */
  lemma {:induction false} TextReaches(st: Scan, content: string, i: nat, text: string)
    requires InTemplate(st) && TextBody(text) && Holds(content, i, text)
    requires CharAt(content, i + |text|) != '{'
    ensures Reaches(st, content, i, st, i + |text|)
    decreases |text|
  {
    if text != "" {
      HoldsAt(content, i, text, 0);
      OneStep(st, content, i);
      var n := if text[0] == '\\' then 2 else 1;
      if |text| >= 2 {
        HoldsAt(content, i, text, 1);
      }
      assert text == text[..n] + text[n..];
      HoldsParts(content, i, text[..n], text[n..]);
      TextReaches(st, content, i + n, text[n..]);
    }
  }

  // ---- Code is passed with its commas counted.

  lemma PlainReaches(st: Scan, content: string, i: nat, c: char)
    requires InCode(st) && PlainChar(c) && Holds(content, i, [c])
    ensures Reaches(st, content, i, st, i + 1)
  {
    HoldsAt(content, i, [c], 0);
    OneStep(st, content, i);
  }

  lemma SlashReaches(st: Scan, content: string, i: nat)
    requires InCode(st) && Holds(content, i, "/") && CharAt(content, i + 1) != '/' && CharAt(content, i + 1) != '*'
    ensures Reaches(st, content, i, st, i + 1)
  {
    HoldsAt(content, i, "/", 0);
    OneStep(st, content, i);
  }

  lemma QuotedReaches(st: Scan, content: string, i: nat, quote: char, body: string)
    requires InCode(st) && (quote == '\'' || quote == '"') && QuoteBody(body, quote, false)
    requires Holds(content, i, [quote] + (body + [quote]))
    ensures Reaches(st, content, i, st, i + |body| + 2)
  {
    HoldsParts(content, i, [quote], body + [quote]);
    HoldsAt(content, i, [quote], 0);
    OneStep(st, content, i);
    QuoteReaches(ScanStep(st, content, i).0, content, i + 1, body);
  }

  lemma LineCommentReaches(st: Scan, content: string, i: nat, body: string)
    requires InCode(st) && '\n' !in body && Holds(content, i, "//" + (body + "\n"))
    ensures Reaches(st, content, i, st, i + |body| + 3)
  {
    HoldsParts(content, i, "//", body + "\n");
    HoldsAt(content, i, "//", 0);
    HoldsAt(content, i, "//", 1);
    OneStep(st, content, i);
    LineReaches(ScanStep(st, content, i).0, content, i + 2, body);
  }

  lemma BlockCommentReaches(st: Scan, content: string, i: nat, body: string)
    requires InCode(st) && BlockBody(body) && Holds(content, i, "/*" + (body + "*/"))
    ensures Reaches(st, content, i, st, i + |body| + 4)
  {
    HoldsParts(content, i, "/*", body + "*/");
    HoldsAt(content, i, "/*", 0);
    HoldsAt(content, i, "/*", 1);
    OneStep(st, content, i);
    BlockReaches(ScanStep(st, content, i).0, content, i + 2, body);
  }

  /** The state behind an opening delimiter, with the parenthesis' call. */
  function Opened(st: Scan, before: string, open: char): Scan {
    st.(lex := Brace(st.lex, open), stack := st.stack + [Frame(open, if open == '(' then CallBefore(before) else None, 0)])
  }

  lemma OpenReaches(st: Scan, content: string, i: nat, open: char)
    requires InCode(st) && Opens(open) && Holds(content, i, [open])
    ensures InCode(Opened(st, content[..i], open))
    ensures Reaches(st, content, i, Opened(st, content[..i], open), i + 1)
  {
    HoldsAt(content, i, [open], 0);
    OneStep(st, content, i);
  }

  lemma CloseReaches(st: Scan, content: string, i: nat, before: string, open: char, n: nat)
    requires InCode(st) && Opens(open) && Holds(content, i, [CloserOf(open)])
    ensures Reaches(After(Opened(st, before, open), n), content, i, st, i + 1)
  {
    hide Reaches;
    HoldsAt(content, i, [CloserOf(open)], 0);
    var inner := After(Opened(st, before, open), n);
    OneStep(inner, content, i);
    assert inner.stack[..|inner.stack| - 1] == st.stack;
    if st.lex.templates != [] {
      var t := st.lex.templates;
      assert t[|t| - 1 := t[|t| - 1] + 1][|t| - 1 := t[|t| - 1]] == t;
    }
  }

  /** The state in the text of a template begun here. */
  function Inside(st: Scan): Scan {
    st.(lex := st.lex.(templates := st.lex.templates + [0]))
  }

  /** The state in the code of a `${}` of that template. */
  function HoleOf(st: Scan): Scan {
    st.(lex := st.lex.(templates := st.lex.templates + [1]), stack := st.stack + [Frame('{', None, 0)])
  }

  lemma TickReaches(st: Scan, content: string, i: nat)
    requires InCode(st) && Holds(content, i, "`")
    ensures Reaches(st, content, i, Inside(st), i + 1)
    ensures Reaches(Inside(st), content, i, st, i + 1)
  {
    HoldsAt(content, i, "`", 0);
    OneStep(st, content, i);
    OneStep(Inside(st), content, i);
    assert Inside(st).lex.templates[..|Inside(st).lex.templates| - 1] == st.lex.templates;
  }

  lemma HoleReaches(st: Scan, content: string, i: nat)
    requires InCode(st) && Holds(content, i, "${")
    ensures InCode(HoleOf(st)) && Reaches(Inside(st), content, i, HoleOf(st), i + 2)
  {
    HoldsAt(content, i, "${", 0);
    HoldsAt(content, i, "${", 1);
    OneStep(Inside(st), content, i);
    var t := Inside(st).lex.templates;
    assert t[|t| - 1 := 1] == st.lex.templates + [1];
  }

  lemma HoleEndReaches(st: Scan, content: string, i: nat, n: nat)
    requires InCode(st) && Holds(content, i, "}")
    ensures Reaches(After(HoleOf(st), n), content, i, Inside(st), i + 1)
  {
    HoldsAt(content, i, "}", 0);
    OneStep(After(HoleOf(st), n), content, i);
    assert HoleOf(st).stack[..|HoleOf(st).stack| - 1] == st.stack;
    var t := HoleOf(st).lex.templates;
    assert t[|t| - 1 := 0] == st.lex.templates + [0];
  }

  function CommaOf(piece: Piece): nat {
    if piece.Comma? then 1 else 0
  }

  lemma {:induction false} PieceReaches(st: Scan, content: string, i: nat, piece: Piece, next: char)
    requires InCode(st) && WellFormed(piece, next) && Holds(content, i, Print(piece))
    requires next == CharAt(content, i + |Print(piece)|)
    ensures Reaches(st, content, i, After(st, CommaOf(piece)), i + |Print(piece)|)
    decreases piece, 0
  {
    hide QuoteBody, BlockBody, TextBody, PartsWellFormed, AllWellFormed;
    AfterZero(st);
    match piece
    case Plain(c) => PlainReaches(st, content, i, c);
    case Comma =>
      HoldsAt(content, i, ",", 0);
      OneStep(st, content, i);
    case Slash => SlashReaches(st, content, i);
    case Quoted(quote, body) => QuotedReaches(st, content, i, quote, body);
    case LineComment(body) => LineCommentReaches(st, content, i, body);
    case BlockComment(body) => BlockCommentReaches(st, content, i, body);
    case Group(open, inner) => GroupReaches(st, content, i, open, inner);
    case Template(text, parts) => WholeTemplateReaches(st, content, i, text, parts);
  }

  lemma {:induction false} GroupReaches(st: Scan, content: string, i: nat, open: char, inner: seq<Piece>)
    requires InCode(st) && Opens(open) && AllWellFormed(inner, CloserOf(open))
    requires Holds(content, i, [open] + (PrintAll(inner) + [CloserOf(open)]))
    ensures Reaches(st, content, i, st, i + |PrintAll(inner)| + 2)
    decreases inner, 2
  {
    hide AllWellFormed, InCode, Commas;
    HoldsParts(content, i, [open], PrintAll(inner) + [CloserOf(open)]);
    HoldsParts(content, i + 1, PrintAll(inner), [CloserOf(open)]);
    HoldsAt(content, i + 1 + |PrintAll(inner)|, [CloserOf(open)], 0);
    OpenReaches(st, content, i, open);
    PiecesReach(Opened(st, content[..i], open), content, i + 1, inner, CloserOf(open));
    CloseReaches(st, content, i + 1 + |PrintAll(inner)|, content[..i], open, Commas(inner));
  }

  lemma HoldsTemplate(content: string, i: nat, text: string, parts: seq<Part>, rest: string)
    requires Holds(content, i, "`" + (text + (PrintParts(parts) + rest)))
    ensures Holds(content, i, "`") && Holds(content, i + 1, text) && Holds(content, i + 1 + |text|, PrintParts(parts))
    ensures Holds(content, i + 1 + |text| + |PrintParts(parts)|, rest)
    ensures |"`" + (text + (PrintParts(parts) + rest))| == 1 + |text| + |PrintParts(parts)| + |rest|
  {
    HoldsParts(content, i, "`", text + (PrintParts(parts) + rest));
    HoldsParts(content, i + 1, text, PrintParts(parts) + rest);
    HoldsParts(content, i + 1 + |text|, PrintParts(parts), rest);
  }

  lemma {:induction false} WholeTemplateReaches(st: Scan, content: string, i: nat, text: string, parts: seq<Part>)
    requires InCode(st) && TextBody(text) && PartsWellFormed(parts)
    requires Holds(content, i, "`" + (text + (PrintParts(parts) + "`")))
    ensures Reaches(st, content, i, st, i + |text| + |PrintParts(parts)| + 2)
    decreases parts, 5
  {
    HoldsTemplate(content, i, text, parts, "`");
    var j := i + 1 + |text| + |PrintParts(parts)|;
    HoldsAt(content, j, "`", 0);
    TickReaches(st, content, i);
    TemplateReaches(st, content, i + 1, j, text, parts);
    TickReaches(st, content, j);
  }

  lemma {:induction false} TemplateReaches(st: Scan, content: string, i: nat, j: nat, text: string, parts: seq<Part>)
    requires InCode(st) && TextBody(text) && PartsWellFormed(parts) && Holds(content, i, text)
    requires Holds(content, i + |text|, PrintParts(parts))
    requires j == i + |text| + |PrintParts(parts)| && CharAt(content, j) != '{'
    ensures Reaches(Inside(st), content, i, Inside(st), j)
    decreases parts, 4
  {
    HoldsFirst(content, i + |text|, PrintParts(parts), CharAt(content, j));
    PartsLead(parts);
    TextReaches(Inside(st), content, i, text);
    PartsReach(st, content, i + |text|, j, parts);
  }

  /** What follows template text is a `${` or what follows the template's parts. */
  lemma PartsLead(parts: seq<Part>)
    ensures parts != [] ==> PrintParts(parts) != "" && PrintParts(parts)[0] == '$'
  {
    if parts != [] {
      assert PrintPart(parts[0])[0] == '$';
    }
  }

  lemma {:induction false} PartsReach(st: Scan, content: string, i: nat, j: nat, parts: seq<Part>)
    requires InCode(st) && PartsWellFormed(parts) && Holds(content, i, PrintParts(parts))
    requires j == i + |PrintParts(parts)| && CharAt(content, j) != '{'
    ensures Reaches(Inside(st), content, i, Inside(st), j)
    decreases parts, 3
  {
    hide TextBody, AllWellFormed, InCode;
    if parts != [] {
      var part := parts[0];
      HoldsParts(content, i, PrintPart(part), PrintParts(parts[1..]));
      HoldsPart(content, i, part);
      var k := i + 3 + |PrintAll(part.code)|;
      HoleCodeReaches(st, content, i, part.code);
      TemplateReaches(st, content, k, j, part.text, parts[1..]);
      ReachesThen(Inside(st), content, i, Inside(st), k, Inside(st), j);
    }
  }

  lemma HoldsPart(content: string, i: nat, part: Part)
    requires Holds(content, i, PrintPart(part))
    ensures |PrintPart(part)| == 3 + |PrintAll(part.code)| + |part.text|
    ensures Holds(content, i, "${") && Holds(content, i + 2, PrintAll(part.code))
    ensures Holds(content, i + 2 + |PrintAll(part.code)|, "}") && Holds(content, i + 3 + |PrintAll(part.code)|, part.text)
  {
    HoldsParts(content, i, "${", PrintAll(part.code) + ("}" + part.text));
    HoldsParts(content, i + 2, PrintAll(part.code), "}" + part.text);
    HoldsParts(content, i + 2 + |PrintAll(part.code)|, "}", part.text);
  }

  lemma {:induction false} HoleCodeReaches(st: Scan, content: string, i: nat, code: seq<Piece>)
    requires InCode(st) && AllWellFormed(code, '}') && Holds(content, i, "${") && Holds(content, i + 2, PrintAll(code))
    requires Holds(content, i + 2 + |PrintAll(code)|, "}")
    ensures Reaches(Inside(st), content, i, Inside(st), i + 3 + |PrintAll(code)|)
    decreases code, 2
  {
    HoldsAt(content, i + 2 + |PrintAll(code)|, "}", 0);
    HoleReaches(st, content, i);
    PiecesReach(HoleOf(st), content, i + 2, code, '}');
    HoleEndReaches(st, content, i + 2 + |PrintAll(code)|, Commas(code));
  }

  /** Nested code is passed as a whole: the state is back, and the frame on top has counted the
      code's own commas and none of those nested in it. */
  lemma {:induction false} PiecesReach(st: Scan, content: string, i: nat, code: seq<Piece>, next: char)
    requires InCode(st) && AllWellFormed(code, next) && Holds(content, i, PrintAll(code))
    requires next == CharAt(content, i + |PrintAll(code)|)
    ensures Reaches(st, content, i, After(st, Commas(code)), i + |PrintAll(code)|)
    decreases code, 1
  {
    if code == [] {
      AfterZero(st);
    } else {
      var rest := PrintAll(code[1..]);
      var j := i + |Print(code[0])|;
      HoldsParts(content, i, Print(code[0]), rest);
      HoldsFirst(content, j, rest, next);
      PieceReaches(st, content, i, code[0], FirstChar(rest, next));
      var mid := After(st, CommaOf(code[0]));
      AfterInCode(st, CommaOf(code[0]));
      PiecesReach(mid, content, j, code[1..], next);
      AfterSum(st, CommaOf(code[0]), Commas(code[1..]));
    }
  }

  // ---- A prefix of nested code.

  /** What is still open: a delimiter, or the `${` of a template whose earlier parts are whole. */
  datatype Opening = Delimiter(open: char) | TemplateHole(text: string, parts: seq<Part>)

  datatype Level = Level(code: seq<Piece>, opening: Opening)

  function PrintOpening(opening: Opening): string {
    match opening
    case Delimiter(open) => [open]
    case TemplateHole(text, parts) => "`" + (text + (PrintParts(parts) + "${"))
  }

  /** The text up to the position: for every open delimiter the code in front of it, and at last
      the code since the innermost. */
  function PrintLevels(levels: seq<Level>, last: seq<Piece>): string {
    if levels == [] then PrintAll(last)
    else PrintAll(levels[0].code) + (PrintOpening(levels[0].opening) + PrintLevels(levels[1..], last))
  }

  predicate OpeningWellFormed(opening: Opening) {
    match opening
    case Delimiter(open) => Opens(open)
    case TemplateHole(text, parts) => TextBody(text) && PartsWellFormed(parts)
  }

  function OpeningChar(opening: Opening): char {
    if opening.Delimiter? then opening.open else '`'
  }

  /** In front of the character `next`. */
  predicate LevelsWellFormed(levels: seq<Level>, last: seq<Piece>, next: char) {
    if levels == [] then AllWellFormed(last, next)
    else
      && AllWellFormed(levels[0].code, OpeningChar(levels[0].opening))
      && OpeningWellFormed(levels[0].opening) && LevelsWellFormed(levels[1..], last, next)
  }

  function FirstCode(levels: seq<Level>, last: seq<Piece>): seq<Piece> {
    if levels == [] then last else levels[0].code
  }

  function CallOf(before: string, opening: Opening): Option<Call> {
    if opening == Delimiter('(') then CallBefore(before) else None
  }

  /** The innermost open parenthesis with a callable name in front, and the commas that stand
      directly in it. */
  function InnermostCall(before: string, levels: seq<Level>, last: seq<Piece>): Option<Frame>
    decreases |levels|
  {
    if levels == [] then None
    else
      var inner := InnermostCall(AfterLevel(before, levels[0]), levels[1..], last);
      if inner.Some? then inner
      else
        var call := CallOf(before + PrintAll(levels[0].code), levels[0].opening);
        if call.Some? then Some(Frame('(', call, Commas(FirstCode(levels[1..], last)))) else None
  }

  function FrameOf(before: string, opening: Opening): Frame {
    Frame(if opening.Delimiter? then opening.open else '{', CallOf(before, opening), 0)
  }

  lemma TemplateHoleReaches(st: Scan, content: string, i: nat, text: string, parts: seq<Part>)
    requires InCode(st) && TextBody(text) && PartsWellFormed(parts)
    requires Holds(content, i, PrintOpening(TemplateHole(text, parts)))
    ensures InCode(HoleOf(st))
    ensures Reaches(st, content, i, HoleOf(st), i + |PrintOpening(TemplateHole(text, parts))|)
  {
    hide TextBody, PartsWellFormed, PrintParts, Holds, InCode;
    HoldsTemplate(content, i, text, parts, "${");
    var k := i + 1 + |text| + |PrintParts(parts)|;
    HoldsAt(content, k, "${", 0);
    TickReaches(st, content, i);
    TemplateReaches(st, content, i + 1, k, text, parts);
    HoleReaches(st, content, k);
  }

  lemma OpeningReaches(st: Scan, content: string, i: nat, opening: Opening) returns (next: Scan)
    requires InCode(st) && OpeningWellFormed(opening) && Holds(content, i, PrintOpening(opening))
    ensures InCode(next) && Reaches(st, content, i, next, i + |PrintOpening(opening)|)
    ensures next.stack == st.stack + [FrameOf(content[..i], opening)]
  {
    match opening
    case Delimiter(open) =>
      OpenReaches(st, content, i, open);
      next := Opened(st, content[..i], open);
    case TemplateHole(text, parts) =>
      TemplateHoleReaches(st, content, i, text, parts);
      next := HoleOf(st);
  }

  function AfterLevel(before: string, level: Level): string {
    before + PrintAll(level.code) + PrintOpening(level.opening)
  }

  function LevelStack(stack: seq<Frame>, before: string, level: Level): seq<Frame> {
    CountedBy(stack, Commas(level.code)) + [FrameOf(before + PrintAll(level.code), level.opening)]
  }

  /** The frames of the open delimiters, each with the commas of the code in it. */
  function Frames(before: string, levels: seq<Level>, last: seq<Piece>): (stack: seq<Frame>)
    ensures |stack| == |levels|
    decreases |levels|
  {
    if levels == [] then []
    else
      CountedBy([FrameOf(before + PrintAll(levels[0].code), levels[0].opening)], Commas(FirstCode(levels[1..], last)))
      + Frames(AfterLevel(before, levels[0]), levels[1..], last)
  }

  /** One level: its code, then its opening. */
  lemma LevelReaches(st: Scan, content: string, i: nat, before: string, level: Level) returns (next: Scan, k: nat)
    requires InCode(st) && AllWellFormed(level.code, OpeningChar(level.opening)) && OpeningWellFormed(level.opening)
    requires i <= |content| && before == content[..i]
    requires Holds(content, i, PrintAll(level.code)) && Holds(content, i + |PrintAll(level.code)|, PrintOpening(level.opening))
    ensures k == i + |PrintAll(level.code)| + |PrintOpening(level.opening)| <= |content|
    ensures InCode(next) && Reaches(st, content, i, next, k)
    ensures content[..k] == AfterLevel(before, level)
    ensures next.stack == LevelStack(st.stack, before, level)
  {
    var mid := After(st, Commas(level.code));
    AfterInCode(st, Commas(level.code));
    var j := i + |PrintAll(level.code)|;
    HoldsAt(content, j, PrintOpening(level.opening), 0);
    PiecesReach(st, content, i, level.code, OpeningChar(level.opening));
    HoldsExtends(content, i, PrintAll(level.code));
    next := OpeningReaches(mid, content, j, level.opening);
    k := j + |PrintOpening(level.opening)|;
    HoldsExtends(content, j, PrintOpening(level.opening));
  }

  lemma LastReaches(st: Scan, content: string, i: nat, last: seq<Piece>) returns (end: Scan)
    requires InCode(st) && Holds(content, i, PrintAll(last)) && AllWellFormed(last, CharAt(content, i + |PrintAll(last)|))
    ensures InCode(end) && Reaches(st, content, i, end, i + |PrintAll(last)|)
    ensures end.stack == CountedBy(st.stack, Commas(last))
  {
    PiecesReach(st, content, i, last, CharAt(content, i + |PrintAll(last)|));
    AfterInCode(st, Commas(last));
    end := After(st, Commas(last));
  }

  lemma {:induction false} LevelsReach(
      st: Scan, content: string, i: nat, before: string, j: nat, stack: seq<Frame>, levels: seq<Level>, last: seq<Piece>)
      returns (end: Scan)
    requires InCode(st) && j <= |content| && LevelsWellFormed(levels, last, CharAt(content, j))
    requires i <= |content| && before == content[..i] && Holds(content, i, PrintLevels(levels, last))
    requires j == i + |PrintLevels(levels, last)|
    requires stack == StackAt(st.stack, before, levels, last)
    ensures InCode(end) && Reaches(st, content, i, end, j) && end.stack == stack
    decreases |levels|
  {
    if levels == [] {
      end := LastReaches(st, content, i, last);
      StackAtEnd(st.stack, before, last);
    } else {
      LevelsParts(content, i, levels, last);
      var next, k := LevelReaches(st, content, i, before, levels[0]);
      FramesStep(st.stack, before, content[..k], levels, last, next.stack);
      end := LevelsReach(next, content, k, content[..k], j, stack, levels[1..], last);
      ReachesThen(st, content, i, next, k, end, j);
    }
  }

  /** The stack at the end of the levels, from the stack at their start. */
  function StackAt(base: seq<Frame>, before: string, levels: seq<Level>, last: seq<Piece>): seq<Frame> {
    CountedBy(base, Commas(FirstCode(levels, last))) + Frames(before, levels, last)
  }

  lemma StackAtEnd(base: seq<Frame>, before: string, last: seq<Piece>)
    ensures StackAt(base, before, [], last) == CountedBy(base, Commas(last))
  {
  }

  lemma LevelsParts(content: string, i: nat, levels: seq<Level>, last: seq<Piece>)
    requires levels != [] && Holds(content, i, PrintLevels(levels, last))
    ensures var code, opening := PrintAll(levels[0].code), PrintOpening(levels[0].opening);
            && Holds(content, i, code) && Holds(content, i + |code|, opening)
            && Holds(content, i + |code| + |opening|, PrintLevels(levels[1..], last))
            && |PrintLevels(levels, last)| == |code| + |opening| + |PrintLevels(levels[1..], last)|
  {
    var code, opening, rest := PrintAll(levels[0].code), PrintOpening(levels[0].opening), PrintLevels(levels[1..], last);
    HoldsParts(content, i, code, opening + rest);
    HoldsParts(content, i + |code|, opening, rest);
  }

  lemma FramesStep(
      stack: seq<Frame>, before: string, after: string, levels: seq<Level>, last: seq<Piece>, next: seq<Frame>)
    requires levels != [] && after == AfterLevel(before, levels[0])
    requires next == LevelStack(stack, before, levels[0])
    ensures StackAt(next, after, levels[1..], last) == StackAt(stack, before, levels, last)
  {
    hide CountedBy, PrintOpening, Commas;
    var base := CountedBy(stack, Commas(levels[0].code));
    var frame := FrameOf(before + PrintAll(levels[0].code), levels[0].opening);
    CountedOnTop(base, frame, Commas(FirstCode(levels[1..], last)));
  }

  lemma CountedOnTop(stack: seq<Frame>, frame: Frame, n: nat)
    ensures CountedBy(stack + [frame], n) == stack + CountedBy([frame], n)
  {
  }

  function Else(first: Option<Frame>, second: Option<Frame>): Option<Frame> {
    if first.Some? then first else second
  }

  lemma ActivePush(base: seq<Frame>, frame: Frame)
    ensures Active(base + [frame]) == if frame.call.Some? then Some(frame) else Active(base)
  {
    assert (base + [frame])[..|base + [frame]| - 1] == base;
  }

  function TopFrame(before: string, levels: seq<Level>, last: seq<Piece>): Frame
    requires levels != []
  {
    CountedBy([FrameOf(before + PrintAll(levels[0].code), levels[0].opening)], Commas(FirstCode(levels[1..], last)))[0]
  }

  lemma FramesCons(before: string, levels: seq<Level>, last: seq<Piece>)
    requires levels != []
    ensures var next := AfterLevel(before, levels[0]);
            var frame := TopFrame(before, levels, last);
            && Frames(before, levels, last) == [frame] + Frames(next, levels[1..], last)
            && InnermostCall(before, levels, last)
               == Else(InnermostCall(next, levels[1..], last), if frame.call.Some? then Some(frame) else None)
  {
  }

  lemma {:induction false} ActiveIsInnermost(
      stack: seq<Frame>, base: seq<Frame>, tail: seq<Frame>, inner: Option<Frame>,
      before: string, levels: seq<Level>, last: seq<Piece>)
    requires tail == Frames(before, levels, last) && inner == InnermostCall(before, levels, last)
    requires stack == base + tail
    ensures Active(stack) == Else(inner, Active(base))
    decreases |levels|
  {
    if levels == [] {
      assert stack == base;
    } else {
      var next := AfterLevel(before, levels[0]);
      var frame := TopFrame(before, levels, last);
      FramesCons(before, levels, last);
      var rest := Frames(next, levels[1..], last);
      assert base + ([frame] + rest) == (base + [frame]) + rest;
      ActiveIsInnermost(stack, base + [frame], rest, InnermostCall(next, levels[1..], last), next, levels[1..], last);
      ActivePush(base, frame);
    }
  }

  // ---- Where the position stands.

  /** The position stands in code, or in a literal or comment of which this much is before it. A
      template's text may end in the backslash of an escape. */
  datatype Ending =
    | AtCode
    | InQuote(quote: char, body: string)
    | InLine(body: string)
    | InBlock(body: string)
    | InText(text: string, parts: seq<Part>, escape: bool)

  function PrintEnding(ending: Ending): string {
    match ending
    case AtCode => ""
    case InQuote(quote, body) => [quote] + body
    case InLine(body) => "//" + body
    case InBlock(body) => "/*" + body
    case InText(text, parts, escape) => "`" + (text + (PrintParts(parts) + EscapeStart(escape)))
  }

  function EscapeStart(escape: bool): string {
    if escape then "\\" else ""
  }

  /** The text of an unfinished quote does not end it. */
  predicate QuoteOpen(body: string, quote: char, escaped: bool)
    decreases |body|
  {
    if body == "" then true
    else if escaped then QuoteOpen(body[1..], quote, false)
    else body[0] != quote && QuoteOpen(body[1..], quote, body[0] == '\\')
  }

  predicate BlockOpen(body: string) {
    forall i :: 0 <= i < |body| - 1 && body[i] == '*' ==> body[i + 1] != '/'
  }

  predicate EndingWellFormed(ending: Ending) {
    match ending
    case AtCode => true
    case InQuote(quote, body) => (quote == '\'' || quote == '"') && QuoteOpen(body, quote, false)
    case InLine(body) => '\n' !in body
    case InBlock(body) => BlockOpen(body)
    case InText(text, parts, _) => TextBody(text) && PartsWellFormed(parts)
  }

  function EndingChar(ending: Ending): char {
    FirstChar(PrintEnding(ending), '\0')
  }

  predicate Ends(st: Scan, content: string, i: nat, end: Scan) {
    ScanRun(st, content, i) == end
  }

  lemma {:induction false} OpenQuoteEnds(st: Scan, content: string, i: nat) returns (end: Scan)
    requires st.lex.quoted && !st.lex.lineComment && !st.lex.blockComment && st.lex.quote != '\\' && i <= |content|
    requires QuoteOpen(content[i..], st.lex.quote, st.lex.escaped)
    ensures Ends(st, content, i, end) && end.stack == st.stack && end.clean == st.clean && end.lex.InLiteralOrComment()
    decreases |content| - i
  {
    end := st;
    if i < |content| {
      var next := ScanStep(st, content, i).0;
      OneStep(st, content, i);
      assert content[i..][1..] == content[i + 1..];
      end := OpenQuoteEnds(next, content, i + 1);
    }
  }

  lemma {:induction false} OpenLineEnds(st: Scan, content: string, i: nat)
    requires st.lex.lineComment && i <= |content| && '\n' !in content[i..]
    ensures Ends(st, content, i, st)
    decreases |content| - i
  {
    if i < |content| {
      OneStep(st, content, i);
      assert content[i] in content[i..] && content[i..][1..] == content[i + 1..];
      OpenLineEnds(st, content, i + 1);
    }
  }

  lemma {:induction false} OpenBlockEnds(st: Scan, content: string, i: nat)
    requires st.lex.blockComment && !st.lex.lineComment && i <= |content| && BlockOpen(content[i..])
    ensures Ends(st, content, i, st)
    decreases |content| - i
  {
    if i < |content| {
      OneStep(st, content, i);
      var rest := content[i..];
      assert rest[1..] == content[i + 1..];
      forall k | 0 <= k < |rest[1..]| - 1 && rest[1..][k] == '*'
        ensures rest[1..][k + 1] != '/'
      {
        assert rest[k + 1] == '*' && rest[k + 2] == rest[1..][k + 1];
      }
      assert i + 1 < |content| ==> content[i + 1] == rest[1];
      OpenBlockEnds(st, content, i + 1);
    }
  }

  lemma OpenTextEnds(st: Scan, content: string, i: nat, text: string, parts: seq<Part>, escape: bool)
    requires InCode(st) && TextBody(text) && PartsWellFormed(parts)
    requires Holds(content, i, PrintEnding(InText(text, parts, escape)))
    requires i + |PrintEnding(InText(text, parts, escape))| == |content|
    ensures Ends(st, content, i, Inside(st))
  {
    hide TextBody, PartsWellFormed, PrintParts, Holds, InCode;
    var open := EscapeStart(escape);
    HoldsTemplate(content, i, text, parts, open);
    var j := i + 1 + |text| + |PrintParts(parts)|;
    TextTail(st, content, j, escape);
    TickReaches(st, content, i);
    TemplateReaches(st, content, i + 1, j, text, parts);
  }

  /** A backslash at the end takes a character that is not there. */
  lemma TextTail(st: Scan, content: string, j: nat, escape: bool)
    requires InCode(st) && Holds(content, j, EscapeStart(escape)) && j + |EscapeStart(escape)| == |content|
    ensures Ends(Inside(st), content, j, Inside(st))
    ensures CharAt(content, j) != '{'
  {
    if escape {
      HoldsAt(content, j, EscapeStart(escape), 0);
      OneStep(Inside(st), content, j);
    }
  }

  /** An unfinished literal or comment keeps the stack to the end. */
  lemma EndingEnds(st: Scan, content: string, i: nat, ending: Ending) returns (end: Scan)
    requires InCode(st) && EndingWellFormed(ending)
    requires Holds(content, i, PrintEnding(ending)) && i + |PrintEnding(ending)| == |content|
    ensures Ends(st, content, i, end) && end.stack == st.stack && end.clean
    ensures end.lex.InLiteralOrComment() <==> !ending.AtCode?
  {
    match ending
    case AtCode => end := st;
    case InQuote(quote, body) =>
      HoldsSlice(content, i, [quote], body);
      OneStep(st, content, i);
      end := OpenQuoteEnds(ScanStep(st, content, i).0, content, i + 1);
    case InLine(body) =>
      HoldsSlice(content, i, "//", body);
      HoldsAt(content, i, "//", 1);
      OneStep(st, content, i);
      end := ScanStep(st, content, i).0;
      OpenLineEnds(end, content, i + 2);
    case InBlock(body) =>
      HoldsSlice(content, i, "/*", body);
      HoldsAt(content, i, "/*", 1);
      OneStep(st, content, i);
      end := ScanStep(st, content, i).0;
      OpenBlockEnds(end, content, i + 2);
    case InText(text, parts, escape) =>
      OpenTextEnds(st, content, i, text, parts, escape);
      end := Inside(st);
  }

  lemma HoldsSlice(content: string, i: nat, head: string, body: string)
    requires Holds(content, i, head + body) && i + |head| + |body| == |content| && head != ""
    ensures content[i] == head[0] && content[i + |head|..] == body && Holds(content, i, head)
  {
    HoldsParts(content, i, head, body);
    HoldsAt(content, i, head, 0);
    forall k | 0 <= k < |body|
      ensures content[i + |head|..][k] == body[k]
    {
      HoldsAt(content, i + |head|, body, k);
    }
  }

  /** The text up to the position. */
  function PrintUpTo(levels: seq<Level>, last: seq<Piece>, ending: Ending): string {
    PrintLevels(levels, last) + PrintEnding(ending)
  }

  predicate UpToWellFormed(levels: seq<Level>, last: seq<Piece>, ending: Ending) {
    LevelsWellFormed(levels, last, EndingChar(ending)) && EndingWellFormed(ending)
  }

  /** At any position of properly nested code the scanner names the innermost open call and the
      commas directly in it, and knows whether it stands in a literal or a comment. */
  lemma ActiveCallIsInnermost(levels: seq<Level>, last: seq<Piece>, ending: Ending)
    requires UpToWellFormed(levels, last, ending)
    ensures var end := ScanRun(SCAN_START, PrintUpTo(levels, last, ending), 0);
            && Active(end.stack) == InnermostCall("", levels, last)
            && end.clean && (end.lex.InLiteralOrComment() <==> !ending.AtCode?)
  {
    var text, code := PrintUpTo(levels, last, ending), PrintLevels(levels, last);
    assert text[..0] == "" && Holds(text, 0, code + PrintEnding(ending));
    HoldsParts(text, 0, code, PrintEnding(ending));
    HoldsFirst(text, |code|, PrintEnding(ending), '\0');
    var stack := StackAt([], "", levels, last);
    var mid := LevelsReach(SCAN_START, text, 0, "", |code|, stack, levels, last);
    var end := EndingEnds(mid, text, |code|, ending);
    ActiveIsInnermost(end.stack, [], Frames("", levels, last), InnermostCall("", levels, last), "", levels, last);
  }

  // ---- A stray brace.

  lemma OneTurn(st: Scan, content: string, i: nat, next: Scan, j: nat)
    requires i < |content| && ScanStep(st, content, i) == (next, j - i)
    ensures ScanRun(st, content, i) == ScanRun(next, content, j)
  {
  }

  /** A closing brace that belongs to a `${}` but meets an open parenthesis: the position test
      takes the template for resumed, the scanner does not, so they disagree on what follows. */
  lemma StrayBraceWitness(text: string)
    requires text == "`${(}"
    ensures PositionRun(LEX_START, text, 0).InLiteralOrComment()
    ensures !ScanRun(SCAN_START, text, 0).lex.InLiteralOrComment()
  {
    assert text[0] == '`' && text[1] == '$' && text[2] == '{' && text[3] == '(' && text[4] == '}' && |text| == 5;
    var l1 := LEX_START.(templates := [0]);
    var l2 := LEX_START.(templates := [1]);
    assert LEX_START.templates + [0] == [0];
    assert PositionRun(LEX_START, text, 0) == PositionRun(l1, text, 1);
    assert l1.WithTop(1) == l2;
    assert PositionRun(l1, text, 1) == PositionRun(l2, text, 3);
    assert PositionRun(l2, text, 3) == PositionRun(l2, text, 4);
    assert l2.WithTop(0) == l1;
    assert PositionRun(l2, text, 4) == l1;
    var s1 := Scan(l1, [], true);
    OneTurn(SCAN_START, text, 0, s1, 1);
    var hole := Frame('{', None, 0);
    assert s1.stack + [hole] == [hole];
    var s2 := Scan(l2, [hole], true);
    OneTurn(s1, text, 1, s2, 3);
    var s3 := s2.(stack := s2.stack + [Frame('(', CallBefore(text[..3]), 0)]);
    OneTurn(s2, text, 3, s3, 4);
    OneTurn(s3, text, 4, s3.(clean := false), 5);
  }
}
