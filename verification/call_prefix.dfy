/** Every prefix of properly nested code is a position the call scanner answers for, and what it
    takes for the callee there (internal/admin/vue_scope_calls.go:61-202 and 366-404). */
module CallPrefix {
  import opened CallScanner
  import opened CallNesting

  /** A position in code: the open levels, the code since, and how it ends. */
  datatype Position = Position(levels: seq<Level>, last: seq<Piece>, ending: Ending)
  {
    function Text(): string {
      PrintUpTo(levels, last, ending)
    }

    predicate Valid() {
      UpToWellFormed(levels, last, ending)
    }

    /** The position with a piece in front of it. */
    function After(piece: Piece): Position {
      if levels == [] then this.(last := [piece] + last)
      else this.(levels := [levels[0].(code := [piece] + levels[0].code)] + levels[1..])
    }

    /** The position inside an opening. */
    function Within(opening: Opening): Position {
      this.(levels := [Level([], opening)] + levels)
    }
  }

  lemma PrependPrints(piece: Piece, code: seq<Piece>)
    ensures PrintAll([piece] + code) == Print(piece) + PrintAll(code)
  {
    assert ([piece] + code)[1..] == code;
  }

  lemma Assoc(a: string, b: string, c: string)
    ensures a + (b + c) == a + b + c
  {
  }

  lemma LevelPrints(level: Level, rest: seq<Level>, last: seq<Piece>)
    ensures PrintLevels([level] + rest, last) == PrintAll(level.code) + (PrintOpening(level.opening) + PrintLevels(rest, last))
  {
    assert ([level] + rest)[1..] == rest;
  }

  lemma LevelValid(level: Level, rest: seq<Level>, last: seq<Piece>, next: char)
    ensures LevelsWellFormed([level] + rest, last, next)
       <==> AllWellFormed(level.code, OpeningChar(level.opening)) && OpeningWellFormed(level.opening)
            && LevelsWellFormed(rest, last, next)
  {
    assert ([level] + rest)[1..] == rest;
  }

  lemma AfterText(at: Position, piece: Piece)
    ensures at.After(piece).Text() == Print(piece) + at.Text()
  {
    hide PrintLevels, PrintAll, Print, PrintOpening, PrintEnding;
    var ending := PrintEnding(at.ending);
    if at.levels == [] {
      PrependPrints(piece, at.last);
      NoLevels(at.last);
      NoLevels([piece] + at.last);
      Assoc(Print(piece), PrintAll(at.last), ending);
    } else {
      var level, rest := at.levels[0], at.levels[1..];
      var tail := PrintOpening(level.opening) + PrintLevels(rest, at.last);
      PrependPrints(piece, level.code);
      assert at.levels == [level] + rest;
      LevelPrints(level, rest, at.last);
      LevelPrints(level.(code := [piece] + level.code), rest, at.last);
      Assoc(Print(piece), PrintAll(level.code), tail);
      Assoc(Print(piece), PrintAll(level.code) + tail, ending);
    }
  }

  lemma NoLevels(last: seq<Piece>)
    ensures PrintLevels([], last) == PrintAll(last)
  {
  }

  lemma PrependValid(piece: Piece, code: seq<Piece>, next: char)
    ensures AllWellFormed([piece] + code, next) <==> WellFormed(piece, FirstChar(PrintAll(code), next)) && AllWellFormed(code, next)
  {
    assert ([piece] + code)[1..] == code;
  }

  lemma OpeningLeads(opening: Opening)
    ensures PrintOpening(opening) != "" && PrintOpening(opening)[0] == OpeningChar(opening)
  {
  }

  lemma AfterValid(at: Position, piece: Piece)
    requires at.Valid() && WellFormed(piece, FirstChar(at.Text(), '\0'))
    ensures at.After(piece).Valid()
  {
    hide PrintLevels, PrintAll, Print, PrintOpening, PrintEnding, WellFormed, AllWellFormed, LevelsWellFormed;
    var ending := PrintEnding(at.ending);
    if at.levels == [] {
      NoLevels(at.last);
      FirstOfConcat(PrintAll(at.last), ending);
      PrependValid(piece, at.last, EndingChar(at.ending));
      NoLevelsValid(at.last, EndingChar(at.ending));
      NoLevelsValid([piece] + at.last, EndingChar(at.ending));
    } else {
      var level, rest := at.levels[0], at.levels[1..];
      var opening, tail := PrintOpening(level.opening), PrintLevels(rest, at.last);
      assert at.levels == [level] + rest;
      LevelPrints(level, rest, at.last);
      Assoc(PrintAll(level.code), opening + tail, ending);
      OpeningLeads(level.opening);
      FirstOfConcat(PrintAll(level.code), opening + tail + ending);
      PrependValid(piece, level.code, OpeningChar(level.opening));
      LevelValid(level, rest, at.last, EndingChar(at.ending));
      LevelValid(level.(code := [piece] + level.code), rest, at.last, EndingChar(at.ending));
    }
  }

  lemma NoLevelsValid(last: seq<Piece>, next: char)
    ensures LevelsWellFormed([], last, next) == AllWellFormed(last, next)
  {
  }

  lemma FirstOfConcat(a: string, b: string)
    ensures FirstChar(a + b, '\0') == FirstChar(a, FirstChar(b, '\0'))
  {
  }

  lemma WithinText(at: Position, opening: Opening)
    ensures at.Within(opening).Text() == PrintOpening(opening) + at.Text()
    ensures at.Valid() && OpeningWellFormed(opening) ==> at.Within(opening).Valid()
  {
    hide PrintLevels, PrintOpening, PrintEnding, LevelsWellFormed;
    LevelPrints(Level([], opening), at.levels, at.last);
    LevelValid(Level([], opening), at.levels, at.last, EndingChar(at.ending));
    assert PrintAll([]) == "" && AllWellFormed([], OpeningChar(opening));
    Assoc(PrintOpening(opening), PrintLevels(at.levels, at.last), PrintEnding(at.ending));
  }

  /** Only a division sign minds what follows it, and less text follows no worse. */
  lemma WellFormedBefore(piece: Piece, next: char, other: char)
    requires WellFormed(piece, next) && (other == next || other == '\0')
    ensures WellFormed(piece, other)
  {
  }

  /** A prefix of the text stops in front of a piece, within it or behind it. */
  lemma {:induction false} PrefixOfCode(code: seq<Piece>, next: char, n: nat) returns (at: Position)
    requires AllWellFormed(code, next) && n <= |PrintAll(code)|
    ensures at.Valid() && at.Text() == PrintAll(code)[..n]
    decreases code, 1
  {
    if n == 0 {
      at := Position([], [], AtCode);
    } else {
      var first, rest := Print(code[0]), PrintAll(code[1..]);
      if n < |first| {
        at := PrefixOfPiece(code[0], FirstChar(rest, next), n);
        assert PrintAll(code)[..n] == first[..n];
      } else {
        var later := PrefixOfCode(code[1..], next, n - |first|);
        at := later.After(code[0]);
        AfterText(later, code[0]);
        assert PrintAll(code)[..n] == first + rest[..n - |first|];
        FirstOfPrefix(rest, n - |first|, next);
        WellFormedBefore(code[0], FirstChar(rest, next), FirstChar(rest[..n - |first|], '\0'));
        AfterValid(later, code[0]);
      }
    }
  }

  lemma FirstOfPrefix(text: string, n: nat, next: char)
    requires n <= |text|
    ensures FirstChar(text[..n], '\0') == FirstChar(text, next) || FirstChar(text[..n], '\0') == '\0'
  {
  }

  lemma {:induction false} PrefixOfPiece(piece: Piece, next: char, n: nat) returns (at: Position)
    requires WellFormed(piece, next) && 0 < n < |Print(piece)|
    ensures at.Valid() && at.Text() == Print(piece)[..n]
    decreases piece, 0
  {
    hide QuoteBody, TextBody, PartsWellFormed, QuoteOpen;
    match piece
    case Quoted(quote, body) =>
      at := Position([], [], InQuote(quote, body[..n - 1]));
      QuotePrefix(body, quote, false, n - 1);
    case LineComment(body) => at := PrefixOfComment(piece, "//", body + "\n", n);
    case BlockComment(body) => at := PrefixOfComment(piece, "/*", body + "*/", n);
    case Group(open, inner) =>
      var within := PrefixOfCode(inner, CloserOf(open), n - 1);
      at := within.Within(Delimiter(open));
      WithinText(within, Delimiter(open));
      assert Print(piece)[..n] == [open] + PrintAll(inner)[..n - 1];
    case Template(text, parts) =>
      at := PrefixOfTemplate(text, parts, n - 1);
      assert Print(piece)[..n] == "`" + (text + PrintParts(parts))[..n - 1];
  }

  lemma {:induction false} QuotePrefix(body: string, quote: char, escaped: bool, n: nat)
    requires QuoteBody(body, quote, escaped) && n <= |body|
    ensures QuoteOpen(body[..n], quote, escaped)
    decreases |body|
  {
    if n > 0 {
      assert body[..n][1..] == body[1..][..n - 1];
      QuotePrefix(body[1..], quote, if escaped then false else body[0] == '\\', n - 1);
    }
  }

  /** Of a comment's first two characters, one alone is a division sign. */
  lemma PrefixOfComment(piece: Piece, head: string, rest: string, n: nat) returns (at: Position)
    requires (piece.LineComment? && head == "//" && rest == piece.body + "\n" && '\n' !in piece.body)
          || (piece.BlockComment? && head == "/*" && rest == piece.body + "*/" && BlockBody(piece.body))
    requires 0 < n < |head + rest|
    ensures at.Valid() && at.Text() == (head + rest)[..n]
  {
    if n == 1 {
      at := Position([], [Slash], AtCode);
      assert PrintAll([Slash]) == "/" + "" by { assert [Slash][1..] == []; }
      assert [Slash][1..] == [];
    } else {
      assert (head + rest)[..n] == head + rest[..n - 2];
      if piece.LineComment? {
        assert rest[..n - 2] == piece.body[..n - 2];
        at := Position([], [], InLine(rest[..n - 2]));
      } else {
        forall i | 0 <= i < |rest[..n - 2]| - 1 && rest[i] == '*'
          ensures rest[i + 1] != '/'
        {
          assert i < |piece.body| && piece.body[i] == '*';
        }
        at := Position([], [], InBlock(rest[..n - 2]));
      }
    }
  }

  lemma {:induction false} TextDollar(text: string)
    requires TextBody(text)
    ensures TextBody(text + "$")
    decreases |text|
  {
    if text != "" {
      var n := if text[0] == '\\' then 2 else 1;
      TextDollar(text[n..]);
      assert (text + "$")[n..] == text[n..] + "$" && (text + "$")[0] == text[0];
      assert |text| >= 2 ==> (text + "$")[1] == text[1];
    } else {
      assert (text + "$")[1..] == "";
    }
  }

  /** A prefix of template text is text, or text and the backslash of an escape. */
  lemma {:induction false} TextPrefix(text: string, n: nat) returns (escape: bool)
    requires TextBody(text) && n <= |text|
    ensures escape ==> n > 0 && text[n - 1] == '\\' && TextBody(text[..n - 1])
    ensures !escape ==> TextBody(text[..n])
    decreases |text|
  {
    if n == 0 {
      escape := false;
    } else if text[0] == '\\' && n == 1 {
      escape := true;
    } else {
      var k := if text[0] == '\\' then 2 else 1;
      escape := TextPrefix(text[k..], n - k);
      var m := if escape then n - 1 else n;
      assert text[..m][k..] == text[k..][..m - k];
    }
  }

  lemma TextCut(text: string, n: nat) returns (cut: string, escape: bool)
    requires TextBody(text) && n <= |text|
    ensures TextBody(cut) && cut + EscapeStart(escape) == text[..n]
  {
    escape := TextPrefix(text, n);
    cut := if escape then text[..n - 1] else text[..n];
    assert escape ==> text[..n - 1] + [text[n - 1]] == text[..n];
  }

  lemma {:induction false} PartsConcat(a: seq<Part>, b: seq<Part>)
    ensures PrintParts(a + b) == PrintParts(a) + PrintParts(b)
    ensures PartsWellFormed(a + b) <==> PartsWellFormed(a) && PartsWellFormed(b)
    decreases |a|
  {
    if a == [] {
      assert a + b == b;
    } else {
      PartsConcat(a[1..], b);
      assert (a + b)[1..] == a[1..] + b;
    }
  }

  lemma OnePart(part: Part)
    ensures PrintParts([part]) == PrintPart(part)
    ensures PartsWellFormed([part]) <==> AllWellFormed(part.code, '}') && TextBody(part.text)
  {
    assert [part][1..] == [];
    assert PrintPart(part) + "" == PrintPart(part);
  }

  lemma {:induction false} PrefixOfTemplate(text: string, parts: seq<Part>, n: nat) returns (at: Position)
    requires TextBody(text) && PartsWellFormed(parts) && n <= |text + PrintParts(parts)|
    ensures at.Valid() && at.Text() == "`" + (text + PrintParts(parts))[..n]
    decreases parts, 5
  {
    hide PrintParts, PartsWellFormed, TextBody;
    var printed := PrintParts(parts);
    if n <= |text| {
      var cut, escape := TextCut(text, n);
      NoParts();
      at := TextPosition(cut, [], escape);
      assert (text + printed)[..n] == text[..n];
      assert cut + "" == cut;
    } else {
      NoParts();
      at := PrefixOfParts(text, [], parts, n - |text|);
      assert text + "" == text && (text + printed)[..n] == text + printed[..n - |text|];
    }
  }

  lemma NoParts()
    ensures PrintParts([]) == "" && PartsWellFormed([])
  {
  }

  lemma TextPosition(text: string, parts: seq<Part>, escape: bool) returns (at: Position)
    requires TextBody(text) && PartsWellFormed(parts)
    ensures at.Valid() && at.Text() == "`" + (text + PrintParts(parts) + EscapeStart(escape))
  {
    hide PrintParts, PartsWellFormed, TextBody, PrintLevels, LevelsWellFormed;
    at := Position([], [], InText(text, parts, escape));
    NoLevels([]);
    NoLevelsValid([], EndingChar(at.ending));
    assert PrintAll([]) == "";
  }

  /** Behind the text and some whole parts, within the others. */
  lemma {:induction false} PrefixOfParts(text: string, done: seq<Part>, parts: seq<Part>, n: nat) returns (at: Position)
    requires TextBody(text) && PartsWellFormed(done) && PartsWellFormed(parts) && n <= |PrintParts(parts)|
    ensures at.Valid() && at.Text() == "`" + (text + PrintParts(done) + PrintParts(parts)[..n])
    decreases parts, 3
  {
    hide PrintPart, TextBody, Position.Text, Position.Valid, PrintParts, PartsWellFormed;
    if n == 0 {
      at := TextPosition(text, done, false);
    } else {
      NoParts();
      assert parts == [parts[0]] + parts[1..];
      var part, later := parts[0], parts[1..];
      PartsConcat([part], later);
      OnePart(part);
      var printed, rest := PrintPart(part), PrintParts(later);
      if n <= |printed| {
        at := PrefixOfPart(text, done, part, n);
        assert PrintParts(parts)[..n] == printed[..n];
      } else {
        PartsConcat(done, [part]);
        at := PrefixOfParts(text, done + [part], later, n - |printed|);
        assert PrintParts(parts)[..n] == printed + rest[..n - |printed|];
        Assoc(text, PrintParts(done), printed);
        Assoc(text + PrintParts(done), printed, rest[..n - |printed|]);
      }
    }
  }

  lemma PartText(part: Part)
    ensures PrintPart(part) == "${" + (PrintAll(part.code) + ("}" + part.text))
    ensures |PrintPart(part)| == 3 + |PrintAll(part.code)| + |part.text|
  {
  }

  lemma PartCut(code: string, text: string, n: nat)
    requires n <= 3 + |code| + |text|
    ensures n == 1 ==> ("${" + (code + ("}" + text)))[..n] == "$"
    ensures 2 <= n <= 2 + |code| ==> ("${" + (code + ("}" + text)))[..n] == "${" + code[..n - 2]
    ensures n >= 3 + |code| ==>
              ("${" + (code + ("}" + text)))[..n] == "${" + (code + ("}" + text[..n - 3 - |code|]))
  {
    var whole := "${" + (code + ("}" + text));
    if 2 <= n <= 2 + |code| {
      assert whole[..n] == "${" + code[..n - 2];
    } else if n >= 3 + |code| {
      assert whole[..n] == "${" + (code + ("}" + text[..n - 3 - |code|]));
    }
  }

  lemma {:induction false} PrefixOfPart(text: string, done: seq<Part>, part: Part, n: nat) returns (at: Position)
    requires TextBody(text) && PartsWellFormed(done) && AllWellFormed(part.code, '}') && TextBody(part.text)
    requires 0 < n <= |PrintPart(part)|
    ensures at.Valid() && at.Text() == "`" + (text + PrintParts(done) + PrintPart(part)[..n])
    decreases part, 2
  {
    hide PrintPart, PrintAll, TextBody, Position.Text, Position.Valid, PrintParts, PartsWellFormed, AllWellFormed;
    var code := PrintAll(part.code);
    PartText(part);
    PartCut(code, part.text, n);
    if n == 1 {
      at := Dollar(text, done);
    } else if n <= 2 + |code| {
      var within := PrefixOfCode(part.code, '}', n - 2);
      at := InHole(text, done, within, code[..n - 2]);
    } else {
      at := BehindHole(text, done, part, n - 3 - |code|);
    }
  }

  lemma InHole(text: string, done: seq<Part>, within: Position, code: string) returns (at: Position)
    requires TextBody(text) && PartsWellFormed(done) && within.Valid() && within.Text() == code
    ensures at.Valid() && at.Text() == "`" + (text + PrintParts(done) + ("${" + code))
  {
    hide Position.Valid, PrintParts, PartsWellFormed, TextBody, PrintUpTo;
    var opening := TemplateHole(text, done);
    at := within.Within(opening);
    WithinText(within, opening);
    Assoc(text, PrintParts(done), "${");
    Assoc(text + PrintParts(done), "${", code);
    Assoc("`", text + PrintParts(done) + "${", code);
  }

  lemma BehindHole(text: string, done: seq<Part>, part: Part, m: nat) returns (at: Position)
    requires TextBody(text) && PartsWellFormed(done) && AllWellFormed(part.code, '}') && TextBody(part.text)
    requires m <= |part.text|
    ensures at.Valid()
    ensures at.Text() == "`" + (text + PrintParts(done) + ("${" + (PrintAll(part.code) + ("}" + part.text[..m]))))
  {
    hide PrintPart, PrintAll, TextBody, Position.Text, Position.Valid, PrintParts, PartsWellFormed, AllWellFormed;
    var cut, escape := TextCut(part.text, m);
    var last := Part(part.code, cut);
    PartsConcat(done, [last]);
    OnePart(last);
    PartText(last);
    at := TextPosition(text, done + [last], escape);
    HoleTail(text + PrintParts(done), PrintAll(part.code), cut, EscapeStart(escape));
    Assoc(text, PrintParts(done), PrintPart(last));
  }

  lemma HoleTail(front: string, code: string, cut: string, escape: string)
    ensures front + ("${" + (code + ("}" + cut))) + escape == front + ("${" + (code + ("}" + (cut + escape))))
  {
    Assoc("}", cut, escape);
    Assoc(code, "}" + cut, escape);
    Assoc("${", code + ("}" + cut), escape);
    Assoc(front, "${" + (code + ("}" + cut)), escape);
  }

  /** Half of a `${` is text still. */
  lemma Dollar(text: string, done: seq<Part>) returns (at: Position)
    requires TextBody(text) && PartsWellFormed(done)
    ensures at.Valid() && at.Text() == "`" + (text + PrintParts(done) + "$")
  {
    hide TextBody, PrintParts, PartsWellFormed, Position.Text, Position.Valid, PrintPart, AllWellFormed;
    if done == [] {
      TextDollar(text);
      NoParts();
      at := TextPosition(text + "$", [], false);
      assert text + "$" + "" + "" == text + "" + "$";
    } else {
      var init, last := done[..|done| - 1], done[|done| - 1];
      var longer := last.(text := last.text + "$");
      assert done == init + [last];
      PartsConcat(init, [last]);
      PartsConcat(init, [longer]);
      OnePart(last);
      OnePart(longer);
      TextDollar(last.text);
      at := TextPosition(text, init + [longer], false);
      LongerPart(last, longer);
      Assoc(PrintParts(init), PrintPart(last), "$");
      Assoc(text, PrintParts(done), "$");
      assert text + PrintParts(init + [longer]) + "" == text + PrintParts(init + [longer]);
    }
  }

  lemma LongerPart(last: Part, longer: Part)
    requires longer == last.(text := last.text + "$")
    ensures PrintPart(longer) == PrintPart(last) + "$"
  {
    PartText(last);
    PartText(longer);
    HoleTail("", PrintAll(last.code), last.text, "$");
  }

  /** At every prefix of properly nested code, also in the middle of a literal, a comment or a
      template, the scanner names the innermost open call with its commas, knows whether it stands
      in a literal or a comment, and agrees on that with the position test. */
  lemma EveryPrefix(code: seq<Piece>, n: nat) returns (at: Position)
    requires AllWellFormed(code, '\0') && n <= |PrintAll(code)|
    ensures at.Valid() && at.Text() == PrintAll(code)[..n]
    ensures var end := ScanRun(SCAN_START, PrintAll(code)[..n], 0);
            && Active(end.stack) == InnermostCall("", at.levels, at.last)
            && (end.lex.InLiteralOrComment() <==> !at.ending.AtCode?)
            && end.lex == PositionRun(LEX_START, PrintAll(code)[..n], 0)
  {
    at := PrefixOfCode(code, '\0', n);
    ActiveCallIsInnermost(at.levels, at.last, at.ending);
    CleanAgrees(PrintAll(code)[..n]);
  }
}
