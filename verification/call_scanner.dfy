/** The call scanner behind signature help, and the position test it shares its lexical rules
    with: internal/admin/vue_scope_calls.go:41-202, 380-425 and 435-520. Offsets count from the
    start of the expression; `content` ends at the limit. */
module CallScanner {
  import opened AdminModel
  import opened TextScan
  import opened StaticChain

  // ---- The call in front of a parenthesis.

  datatype Call = Call(name: string, start: nat, end: nat, filter: bool)

  function TrimEnd(s: string): (n: nat)
    ensures n <= |s|
  {
    if s != "" && JsSpace(s[|s| - 1]) then TrimEnd(s[..|s| - 1]) else |s|
  }

  /** Where the identifier at the end of the text starts. */
  function NameStart(s: string): (n: nat)
    ensures n <= |s|
  {
    if s != "" && IdentifierPart(s[|s| - 1]) then NameStart(s[..|s| - 1]) else |s|
  }

  function NameEnd(before: string): (n: nat)
    ensures n <= |before|
  {
    var n := TrimEnd(before);
    if n >= 2 && before[n - 2] == '?' && before[n - 1] == '.' then TrimEnd(before[..n - 2]) else n
  }

  /** twigVueCallBefore, for the text from the expression's start to the parenthesis. */
  function CallBefore(before: string): Option<Call> {
    var end := NameEnd(before);
    var start := NameStart(before[..end]);
    if start == end || !IdentifierStart(before[start]) then None
    else
      var p := TrimEnd(before[..start]);
      Some(Call(before[start..end], start, end, p > 0 && before[p - 1] == '|' && !(p >= 2 && before[p - 2] == '|')))
  }

  method SkipBack(content: string, from: nat) returns (cursor: nat)
    requires from <= |content|
    ensures cursor == TrimEnd(content[..from])
  {
    cursor := from;
    while cursor > 0 && JsSpace(content[cursor - 1])
      invariant 0 <= cursor <= from && TrimEnd(content[..cursor]) == TrimEnd(content[..from])
    {
      assert content[..cursor][..cursor - 1] == content[..cursor - 1];
      cursor := cursor - 1;
    }
  }

  method NameBack(content: string, end: nat) returns (cursor: nat)
    requires end <= |content|
    ensures cursor == NameStart(content[..end])
  {
    cursor := end;
    while cursor > 0 && IdentifierPart(content[cursor - 1])
      invariant 0 <= cursor <= end && NameStart(content[..cursor]) == NameStart(content[..end])
    {
      assert content[..cursor][..cursor - 1] == content[..cursor - 1];
      cursor := cursor - 1;
    }
  }

  method EndBack(content: string, open: nat) returns (cursor: nat)
    requires open <= |content|
    ensures cursor == NameEnd(content[..open])
  {
    cursor := SkipBack(content, open);
    if cursor >= 2 && content[cursor - 2] == '?' && content[cursor - 1] == '.' {
      assert content[..open][..cursor - 2] == content[..cursor - 2];
      cursor := SkipBack(content, cursor - 2);
    }
  }

  method TwigVueCallBefore(content: string, open: nat) returns (call: Option<Call>)
    requires open <= |content|
    ensures call == CallBefore(content[..open])
  {
    ghost var before := content[..open];
    var end := EndBack(content, open);
    assert before[..end] == content[..end];
    var cursor := NameBack(content, end);
    if cursor == end || !IdentifierStart(content[cursor]) {
      return None;
    }
    assert before[..cursor] == content[..cursor] && before[cursor..end] == content[cursor..end];
    var previous := SkipBack(content, cursor);
    var filter := previous > 0 && content[previous - 1] == '|';
    if filter && previous >= 2 && content[previous - 2] == '|' {
      filter := false;
    }
    return Some(Call(content[cursor..end], cursor, end, filter));
  }

  // ---- Lexical state.

  /** Each template is 0 in its text and otherwise the brace depth of its current `${}`. */
  datatype Lex = Lex(quoted: bool, quote: char, escaped: bool, lineComment: bool, blockComment: bool, templates: seq<int>)
  {
    predicate InText() {
      templates != [] && templates[|templates| - 1] == 0
    }

    predicate InLiteralOrComment() {
      quoted || lineComment || blockComment || InText()
    }

    function WithTop(depth: int): Lex
      requires templates != []
    {
      this.(templates := templates[|templates| - 1 := depth])
    }
  }

  const LEX_START := Lex(false, '\0', false, false, false, [])

  /** What one turn met: text without structure, the `${` of a template, or a character of code. */
  datatype Event = Skipped | Hole | Code

  predicate HasAhead(content: string, i: nat, c: char) {
    i + 1 < |content| && content[i + 1] == c
  }

  /** The part of a turn both scanners share: the new state, the characters taken, what was met. */
  function Lexical(lex: Lex, content: string, i: nat): (r: (Lex, nat, Event))
    requires i < |content|
    ensures 1 <= r.1 <= 2
    ensures r.2.Hole? ==> r.0.templates != []
    ensures r.2.Code? ==> r.0 == lex && r.1 == 1 && !lex.InLiteralOrComment()
  {
    var c := content[i];
    if lex.lineComment then (if c == '\n' then lex.(lineComment := false) else lex, 1, Skipped)
    else if lex.blockComment then
      if c == '*' && HasAhead(content, i, '/') then (lex.(blockComment := false), 2, Skipped) else (lex, 1, Skipped)
    else if lex.quoted then
      if lex.escaped then (lex.(escaped := false), 1, Skipped)
      else if c == '\\' then (lex.(escaped := true), 1, Skipped)
      else (if c == lex.quote then lex.(quoted := false, quote := '\0') else lex, 1, Skipped)
    else if lex.InText() then
      if c == '\\' then (lex, 2, Skipped)
      else if c == '`' then (lex.(templates := lex.templates[..|lex.templates| - 1]), 1, Skipped)
      else if c == '$' && HasAhead(content, i, '{') then (lex.WithTop(1), 2, Hole)
      else (lex, 1, Skipped)
    else if c == '/' && HasAhead(content, i, '/') then (lex.(lineComment := true), 2, Skipped)
    else if c == '/' && HasAhead(content, i, '*') then (lex.(blockComment := true), 2, Skipped)
    else if c == '\'' || c == '"' then (lex.(quoted := true, quote := c), 1, Skipped)
    else if c == '`' then (lex.(templates := lex.templates + [0]), 1, Skipped)
    else (lex, 1, Code)
  }

  function Brace(lex: Lex, c: char): Lex {
    if lex.templates == [] then lex
    else if c == '{' then lex.WithTop(lex.templates[|lex.templates| - 1] + 1)
    else if c == '}' then lex.WithTop(lex.templates[|lex.templates| - 1] - 1)
    else lex
  }

  /** vueExpressionPositionInLiteralOrComment, from position i. */
  function PositionRun(lex: Lex, content: string, i: nat): Lex
    decreases |content| - i
  {
    if i >= |content| then lex
    else
      var (next, taken, event) := Lexical(lex, content, i);
      PositionRun(if event.Code? then Brace(next, content[i]) else next, content, i + taken)
  }

  method PositionInLiteralOrComment(prefix: string) returns (inside: bool)
    ensures inside == PositionRun(LEX_START, prefix, 0).InLiteralOrComment()
  {
    var lex := LEX_START;
    var index := 0;
    while index < |prefix|
      invariant PositionRun(LEX_START, prefix, 0) == PositionRun(lex, prefix, index)
      decreases |prefix| - index
    {
      var (next, taken, event) := Lexical(lex, prefix, index);
      lex := if event.Code? then Brace(next, prefix[index]) else next;
      index := index + taken;
    }
    return lex.InLiteralOrComment();
  }

  // ---- The scanner.

  /** An open delimiter: for a callable parenthesis the call and the commas seen directly in it. */
  datatype Frame = Frame(delimiter: char, call: Option<Call>, commas: nat)

  /** `clean` is false once a closing brace of a template's code met another open delimiter. */
  datatype Scan = Scan(lex: Lex, stack: seq<Frame>, clean: bool)

  const SCAN_START := Scan(LEX_START, [], true)

  predicate Matching(open: char, close: char) {
    (open == '(' && close == ')') || (open == '[' && close == ']') || (open == '{' && close == '}')
  }

  predicate Opens(c: char) {
    c == '(' || c == '[' || c == '{'
  }

  predicate Closes(c: char) {
    c == ')' || c == ']' || c == '}'
  }

  predicate TopIs(stack: seq<Frame>, close: char) {
    stack != [] && Matching(stack[|stack| - 1].delimiter, close)
  }

  function Counted(stack: seq<Frame>): seq<Frame> {
    if stack != [] && stack[|stack| - 1].delimiter == '(' && stack[|stack| - 1].call.Some?
    then stack[|stack| - 1 := stack[|stack| - 1].(commas := stack[|stack| - 1].commas + 1)]
    else stack
  }

  /** A character of code. */
  function ScanCode(st: Scan, content: string, i: nat): Scan
    requires i < |content|
  {
    var c := content[i];
    if Opens(c) then
      st.(lex := Brace(st.lex, c),
          stack := st.stack + [Frame(c, if c == '(' then CallBefore(content[..i]) else None, 0)])
    else if Closes(c) then
      if TopIs(st.stack, c) then st.(lex := Brace(st.lex, c), stack := st.stack[..|st.stack| - 1])
      else st.(clean := st.clean && !(c == '}' && st.lex.templates != []))
    else if c == ',' then st.(stack := Counted(st.stack))
    else st
  }

  function ScanStep(st: Scan, content: string, i: nat): (r: (Scan, nat))
    requires i < |content|
    ensures 1 <= r.1 <= 2
  {
    var (lex, taken, event) := Lexical(st.lex, content, i);
    match event
    case Skipped => (st.(lex := lex), taken)
    case Hole => (st.(lex := lex, stack := st.stack + [Frame('{', None, 0)]), taken)
    case Code => (ScanCode(st, content, i), taken)
  }

  function ScanRun(st: Scan, content: string, i: nat): Scan
    decreases |content| - i
  {
    if i >= |content| then st
    else
      var (next, taken) := ScanStep(st, content, i);
      ScanRun(next, content, i + taken)
  }

  /** The innermost open callable parenthesis. */
  function Active(stack: seq<Frame>): Option<Frame> {
    if stack == [] then None
    else if stack[|stack| - 1].call.Some? then Some(stack[|stack| - 1])
    else Active(stack[..|stack| - 1])
  }

  class TwigVueCallScanner {
    const content: string
    var stack: seq<Frame>
    var quoted: bool
    var quote: char
    var escaped: bool
    var lineComment: bool
    var blockComment: bool
    var templates: seq<int>
    ghost var clean: bool

    constructor (content: string)
      ensures this.content == content && Value() == SCAN_START
    {
      this.content := content;
      stack, templates, clean := [], [], true;
      quoted, quote, escaped, lineComment, blockComment := false, '\0', false, false, false;
    }

    ghost function Value(): Scan
      reads this
    {
      Scan(Lex(quoted, quote, escaped, lineComment, blockComment, templates), stack, clean)
    }

    /** Consumes at least one character and says where to go on. */
    method Consume(index: nat) returns (next: nat)
      requires index < |content|
      modifies this
      ensures (Value(), next - index) == ScanStep(old(Value()), content, index) && next > index
    {
      var current := content[index];
      next := index + 1;
      if lineComment {
        if current == '\n' {
          lineComment := false;
        }
        return;
      }
      if blockComment {
        if current == '*' && index + 1 < |content| && content[index + 1] == '/' {
          blockComment := false;
          next := index + 2;
        }
        return;
      }
      if quoted {
        if escaped {
          escaped := false;
        } else if current == '\\' {
          escaped := true;
        } else if current == quote {
          quoted, quote := false, '\0';
        }
        return;
      }
      if |templates| > 0 && templates[|templates| - 1] == 0 {
        next := ConsumeTemplateText(index);
        return;
      }
      if current == '/' && index + 1 < |content| {
        if content[index + 1] == '/' {
          lineComment := true;
          return index + 2;
        }
        if content[index + 1] == '*' {
          blockComment := true;
          return index + 2;
        }
      }
      if current == '\'' || current == '"' {
        quoted, quote := true, current;
        return;
      }
      if current == '`' {
        templates := templates + [0];
        return;
      }
      ConsumeCode(index);
    }

    method ConsumeTemplateText(index: nat) returns (next: nat)
      requires index < |content| && Value().lex.InText() && !quoted && !lineComment && !blockComment
      modifies this
      ensures (Value(), next - index) == ScanStep(old(Value()), content, index) && next > index
    {
      var current := content[index];
      next := index + 1;
      if current == '\\' {
        return index + 2;
      }
      if current == '`' {
        templates := templates[..|templates| - 1];
        return;
      }
      if current == '$' && index + 1 < |content| && content[index + 1] == '{' {
        templates := templates[|templates| - 1 := 1];
        stack := stack + [Frame('{', None, 0)];
        return index + 2;
      }
    }

    method ConsumeCode(index: nat)
      requires index < |content|
      modifies this
      ensures Value() == ScanCode(old(Value()), content, index)
    {
      var current := content[index];
      if |templates| > 0 && current == '{' {
        templates := templates[|templates| - 1 := templates[|templates| - 1] + 1];
      }
      if current == '(' || current == '[' || current == '{' {
        var call := None;
        if current == '(' {
          call := TwigVueCallBefore(content, index);
        }
        stack := stack + [Frame(current, call, 0)];
      } else if current == ')' || current == ']' || current == '}' {
        if |stack| == 0 || !Matching(stack[|stack| - 1].delimiter, current) {
          clean := clean && !(current == '}' && templates != []);
          return;
        }
        stack := stack[..|stack| - 1];
      } else if current == ',' {
        if |stack| > 0 && stack[|stack| - 1].delimiter == '(' && stack[|stack| - 1].call.Some? {
          stack := stack[|stack| - 1 := stack[|stack| - 1].(commas := stack[|stack| - 1].commas + 1)];
        }
      }
      if |templates| > 0 && current == '}' {
        templates := templates[|templates| - 1 := templates[|templates| - 1] - 1];
      }
    }

    /** activeCall */
    method ActiveCall() returns (active: Option<Frame>)
      requires Value() == SCAN_START
      modifies this
      ensures Value() == ScanRun(SCAN_START, content, 0)
      ensures active == Active(stack)
    {
      var index := 0;
      while index < |content|
        invariant ScanRun(SCAN_START, content, 0) == ScanRun(Value(), content, index)
        decreases |content| - index
      {
        index := Consume(index);
      }
      var k := |stack|;
      assert stack[..|stack|] == stack;
      while k > 0
        invariant 0 <= k <= |stack| && Active(stack) == Active(stack[..k])
      {
        assert stack[..k][..k - 1] == stack[..k - 1];
        if stack[k - 1].call.Some? {
          return Some(stack[k - 1]);
        }
        k := k - 1;
      }
      return None;
    }
  }

  // ---- The two scanners agree.

  /** The two scanners' states agree before every turn. */
  predicate LockStep(st: Scan, lex: Lex, content: string, i: nat)
    decreases |content| - i
  {
    && st.lex == lex
    && (i < |content| ==>
          var (next, taken) := ScanStep(st, content, i);
          var (after, _, event) := Lexical(lex, content, i);
          LockStep(next, if event.Code? then Brace(after, content[i]) else after, content, i + taken))
  }

  lemma {:induction false} CleanStays(st: Scan, content: string, i: nat)
    ensures ScanRun(st, content, i).clean ==> st.clean
    decreases |content| - i
  {
    if i < |content| {
      var (next, taken) := ScanStep(st, content, i);
      CleanStays(next, content, i + taken);
    }
  }

  /** Their quote, comment and template states agree all the way exactly when no closing brace of
      a template's code ever meets another open delimiter. */
  lemma {:induction false} AgreeIff(st: Scan, content: string, i: nat)
    requires st.clean
    ensures LockStep(st, st.lex, content, i) <==> ScanRun(st, content, i).clean
    decreases |content| - i
  {
    if i < |content| {
      var (next, taken) := ScanStep(st, content, i);
      if next.clean {
        AgreeIff(next, content, i + taken);
      } else {
        CleanStays(next, content, i + taken);
      }
    }
  }

  lemma {:induction false} LockStepRuns(st: Scan, lex: Lex, content: string, i: nat)
    requires LockStep(st, lex, content, i)
    ensures ScanRun(st, content, i).lex == PositionRun(lex, content, i)
    decreases |content| - i
  {
    if i < |content| {
      var (next, taken) := ScanStep(st, content, i);
      var (after, _, event) := Lexical(lex, content, i);
      LockStepRuns(next, if event.Code? then Brace(after, content[i]) else after, content, i + taken);
    }
  }

  /** On a clean text, at every prefix of it that is itself clean, the scanner and the position
      test agree on what is literal and what is comment. */
  lemma CleanAgrees(prefix: string)
    requires ScanRun(SCAN_START, prefix, 0).clean
    ensures ScanRun(SCAN_START, prefix, 0).lex == PositionRun(LEX_START, prefix, 0)
  {
    AgreeIff(SCAN_START, prefix, 0);
    LockStepRuns(SCAN_START, LEX_START, prefix, 0);
  }
}
