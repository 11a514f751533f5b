/** Byte-level text helpers shared by the scanners: trimming and the quote and
    delimiter state of slotScanState (internal/admin/slot_scope.go). */
module TextScan {
  import opened AdminModel

  predicate IsSpace(c: char) {
    c == ' ' || c == '\t' || c == '\n' || c == '\r' || c == '\U{0B}' || c == '\U{0C}'
  }

  predicate IsQuote(c: char) {
    c == '\'' || c == '"' || c == '`'
  }

  predicate IdentifierStart(c: char) {
    c == '_' || c == '$' || 'a' <= c <= 'z' || 'A' <= c <= 'Z'
  }

  predicate IdentifierPart(c: char) {
    IdentifierStart(c) || '0' <= c <= '9'
  }

  /** Length of the identifier characters at the start. */
  function IdentifierRun(text: string): (n: nat)
    ensures n <= |text|
  {
    if text != "" && IdentifierPart(text[0]) then 1 + IdentifierRun(text[1..]) else 0
  }

  method IdentifierEnd(value: string, start: nat) returns (end: nat)
    requires start < |value| && IdentifierStart(value[start])
    ensures end == start + IdentifierRun(value[start..]) && start < end <= |value|
  {
    end := start;
    while end < |value| && IdentifierPart(value[end])
      invariant start <= end <= |value|
      invariant IdentifierRun(value[start..]) == end - start + IdentifierRun(value[end..])
    {
      assert value[end..][1..] == value[end + 1..];
      end := end + 1;
    }
  }

  function TrimLeft(s: string): string {
    if s != "" && IsSpace(s[0]) then TrimLeft(s[1..]) else s
  }

  function TrimRight(s: string): string {
    if s != "" && IsSpace(s[|s| - 1]) then TrimRight(s[..|s| - 1]) else s
  }

  lemma {:induction false} TrimLeftSuffix(s: string)
    ensures var r := TrimLeft(s); |r| <= |s| && s[|s| - |r|..] == r && (r != "" ==> !IsSpace(r[0]))
  {
    if s != "" && IsSpace(s[0]) {
      TrimLeftSuffix(s[1..]);
    }
  }

  lemma {:induction false} TrimRightPrefix(s: string)
    ensures var r := TrimRight(s); |r| <= |s| && s[..|r|] == r && (r != "" ==> !IsSpace(r[|r| - 1]))
  {
    if s != "" && IsSpace(s[|s| - 1]) {
      TrimRightPrefix(s[..|s| - 1]);
    }
  }

  function Trim(s: string): string {
    TrimRight(TrimLeft(s))
  }

  predicate Trimmed(s: string) {
    s != "" ==> !IsSpace(s[0]) && !IsSpace(s[|s| - 1])
  }

  predicate AllSpace(s: string) {
    forall i :: 0 <= i < |s| ==> IsSpace(s[i])
  }

  lemma {:induction false} TrimLeftPadding(pad: string, s: string)
    requires AllSpace(pad) && (s != "" ==> !IsSpace(s[0]))
    ensures TrimLeft(pad + s) == s
  {
    if pad == "" {
      assert pad + s == s;
    } else {
      assert (pad + s)[1..] == pad[1..] + s;
      TrimLeftPadding(pad[1..], s);
    }
  }

  lemma {:induction false} TrimRightPadding(s: string, pad: string)
    requires AllSpace(pad) && (s != "" ==> !IsSpace(s[|s| - 1]))
    ensures TrimRight(s + pad) == s
  {
    if pad == "" {
      assert s + pad == s;
    } else {
      assert (s + pad)[..|s + pad| - 1] == s + pad[..|pad| - 1];
      TrimRightPadding(s, pad[..|pad| - 1]);
    }
  }

  /** Whitespace around a trimmed, non-empty text does not matter. */
  lemma TrimPadding(left: string, s: string, right: string)
    requires AllSpace(left) && AllSpace(right) && Trimmed(s) && s != ""
    ensures Trim(left + s + right) == s
  {
    assert left + s + right == left + (s + right);
    TrimLeftPadding(left, s + right);
    TrimRightPadding(s, right);
  }

  lemma {:induction false} TrimLeftSplits(s: string)
    ensures |TrimLeft(s)| <= |s| && AllSpace(s[..|s| - |TrimLeft(s)|])
  {
    if s != "" && IsSpace(s[0]) {
      TrimLeftSplits(s[1..]);
      var n := |s| - |TrimLeft(s)|;
      assert s[..n] == [s[0]] + s[1..][..n - 1];
    }
  }

  lemma {:induction false} TrimRightSplits(s: string)
    ensures |TrimRight(s)| <= |s| && AllSpace(s[|TrimRight(s)|..])
  {
    if s != "" && IsSpace(s[|s| - 1]) {
      var init := s[..|s| - 1];
      TrimRightSplits(init);
      assert s[|TrimRight(s)|..] == init[|TrimRight(s)|..] + [s[|s| - 1]];
    }
  }

  /** What trimming removes: whitespace on both sides of a trimmed middle. */
  lemma TrimSplits(s: string) returns (left: string, right: string)
    ensures s == left + Trim(s) + right && AllSpace(left) && AllSpace(right)
    ensures Trimmed(Trim(s))
    ensures |left| == |s| - |TrimLeft(s)|
  {
    var l, t := TrimLeft(s), Trim(s);
    TrimLeftSuffix(s);
    TrimRightPrefix(l);
    left, right := s[..|s| - |l|], l[|t|..];
    TrimLeftSplits(s);
    TrimRightSplits(l);
    Rejoin(s, |s| - |l|);
    Rejoin(l, |t|);
    Reassociate(left, t, right);
    TrimEnds(s);
  }

  lemma Rejoin(s: string, n: nat)
    requires n <= |s|
    ensures s == s[..n] + s[n..]
  {
  }

  lemma Reassociate(a: string, b: string, c: string)
    ensures a + (b + c) == a + b + c
  {
  }

  lemma TrimEnds(s: string)
    ensures Trimmed(Trim(s))
  {
    var l, t := TrimLeft(s), Trim(s);
    TrimLeftSuffix(s);
    TrimRightPrefix(l);
    if t != "" {
      assert t[0] == l[0];
    }
  }

  lemma TrimmedFixed(s: string)
    requires Trimmed(s)
    ensures Trim(s) == s
  {
  }

  lemma TrimRightMore(value: string, pad: string)
    requires AllSpace(pad)
    ensures Trim(value + pad) == Trim(value)
  {
    var left, right := TrimSplits(value);
    var t := Trim(value);
    if t != "" {
      TrimPadding(left, t, right + pad);
      assert left + t + (right + pad) == value + pad;
    } else {
      AllSpaceTrims(left + right + pad);
      assert value + pad == left + right + pad;
    }
  }

  lemma {:induction false} AllSpaceTrims(s: string)
    requires AllSpace(s)
    ensures Trim(s) == ""
  {
    if s != "" {
      AllSpaceTrims(s[1..]);
    }
  }

  lemma TrimLeftMore(pad: string, value: string)
    requires AllSpace(pad)
    ensures Trim(pad + value) == Trim(value)
  {
    var left, right := TrimSplits(value);
    var t := Trim(value);
    if t != "" {
      TrimPadding(pad + left, t, right);
      assert pad + left + t + right == pad + value;
    } else {
      AllSpaceTrims(pad + (left + right));
      assert value == left + right;
    }
  }

  lemma TrimRightBehind(a: string, b: string)
    requires a != "" && !IsSpace(a[|a| - 1])
    ensures TrimRight(a + b) == a + TrimRight(b)
    decreases |b|
  {
    if b == "" {
      assert a + b == a;
    } else {
      var init, last := b[..|b| - 1], b[|b| - 1];
      assert (a + b)[..|a + b| - 1] == a + init && (a + b)[|a + b| - 1] == last;
      if IsSpace(last) { TrimRightBehind(a, init); }
    }
  }

  lemma TrimRightTrims(s: string)
    ensures Trim(TrimRight(s)) == Trim(s)
  {
    var t := TrimRight(s);
    TrimRightSplits(s);
    TrimRightPrefix(s);
    Rejoin(s, |t|);
    TrimRightMore(t, s[|t|..]);
  }

  lemma TrimIdempotent(s: string)
    ensures Trim(Trim(s)) == Trim(s)
  {
    var left, right := TrimSplits(s);
    TrimmedFixed(Trim(s));
  }

  // ---- slotScanState.

  /** `quote` is the open quote, or None outside literals. */
  datatype SlotScan = SlotScan(quoted: bool, quote: char, escaped: bool, braces: int, brackets: int, parens: int)
  {
    predicate TopLevel() {
      !quoted && braces == 0 && brackets == 0 && parens == 0
    }

    function Consume(c: char): SlotScan {
      if quoted then
        if escaped then this.(escaped := false)
        else if c == '\\' then this.(escaped := true)
        else if c == quote then this.(quoted := false, quote := '\0')
        else this
      else
        match c
        case '{' => this.(braces := braces + 1)
        case '}' => this.(braces := braces - 1)
        case '[' => this.(brackets := brackets + 1)
        case ']' => this.(brackets := brackets - 1)
        case '(' => this.(parens := parens + 1)
        case ')' => this.(parens := parens - 1)
        case _ => if IsQuote(c) then this.(quoted := true, quote := c) else this
    }

    function ConsumeAll(s: string): SlotScan {
      if s == "" then this else ConsumeAll(s[..|s| - 1]).Consume(s[|s| - 1])
    }
  }

  const NEUTRAL_SLOT := SlotScan(false, '\0', false, 0, 0, 0)

  lemma {:induction false} ConsumeAllConcat(st: SlotScan, a: string, b: string)
    ensures st.ConsumeAll(a + b) == st.ConsumeAll(a).ConsumeAll(b)
  {
    if b == "" {
      assert a + b == a;
    } else {
      assert (a + b)[..|a + b| - 1] == a + b[..|b| - 1];
      ConsumeAllConcat(st, a, b[..|b| - 1]);
    }
  }

  /** Depth and quote state of matchingSlotDelimiter before position `i`. */
  datatype MatchScan = MatchScan(quoted: bool, quote: char, escaped: bool, depth: int)
  {
    function Consume(c: char, open: char, close: char): MatchScan {
      if quoted then
        if escaped then this.(escaped := false)
        else if c == '\\' then this.(escaped := true)
        else if c == quote then this.(quoted := false, quote := '\0')
        else this
      else if IsQuote(c) then this.(quoted := true, quote := c)
      else if c == open then this.(depth := depth + 1)
      else if c == close then this.(depth := depth - 1)
      else this
    }
  }

  /** Offset in `rest` of the delimiter that closes the scan, or -1. */
  function MatchFrom(rest: string, open: char, close: char, st: MatchScan): (i: int)
    ensures -1 <= i < |rest|
    ensures i >= 0 ==> rest[i] == close
  {
    if rest == "" then -1
    else
      var next := st.Consume(rest[0], open, close);
      if !st.quoted && !IsQuote(rest[0]) && rest[0] != open && rest[0] == close && next.depth == 0 then 0
      else
        var tail := MatchFrom(rest[1..], open, close, next);
        if tail < 0 then -1 else tail + 1
  }

  const NEUTRAL_MATCH := MatchScan(false, '\0', false, 0)

  function MatchingDelimiter(value: string, start: nat, open: char, close: char): (i: int)
    requires start <= |value|
    ensures i == -1 || (start <= i < |value| && value[i] == close)
  {
    var offset := MatchFrom(value[start..], open, close, NEUTRAL_MATCH);
    if offset < 0 then -1 else start + offset
  }

  /** The loop of matchingSlotDelimiter. */
  method MatchingSlotDelimiter(value: string, start: nat, open: char, close: char) returns (found: int)
    requires start <= |value|
    ensures found == MatchingDelimiter(value, start, open, close)
  {
    var st := NEUTRAL_MATCH;
    var index := start;
    while index < |value|
      invariant start <= index <= |value|
      invariant MatchingDelimiter(value, start, open, close)
             == var tail := MatchFrom(value[index..], open, close, st); if tail < 0 then -1 else index + tail
    {
      var current := value[index];
      assert value[index..][1..] == value[index + 1..];
      var next := st.Consume(current, open, close);
      if !st.quoted && !IsQuote(current) && current != open && current == close && next.depth == 0 {
        return index;
      }
      st := next;
      index := index + 1;
    }
    return -1;
  }

  // ---- What a pair of delimiters may enclose.

  /** The scan run over `inner` from inside a pair, or None when `inner` closes the pair itself. */
  function Inside(inner: string, open: char, close: char, st: MatchScan): Option<MatchScan> {
    if inner == "" then Some(st)
    else
      var next := st.Consume(inner[0], open, close);
      if !st.quoted && !IsQuote(inner[0]) && inner[0] != open && inner[0] == close && next.depth == 0 then None
      else Inside(inner[1..], open, close, next)
  }

  const ENTERED := MatchScan(false, '\0', false, 1)

  /** Every literal is closed and the pair's own delimiters are balanced. */
  predicate Enclosed(inner: string, open: char, close: char) {
    var end := Inside(inner, open, close, ENTERED);
    end.Some? && !end.value.quoted && end.value.depth == 1
  }

  lemma {:induction false} InsideCloses(inner: string, tail: string, open: char, close: char, st: MatchScan)
    requires open != close && !IsQuote(open) && !IsQuote(close)
    ensures MatchFrom(inner + ([close] + tail), open, close, st) == |inner|
        <==> var end := Inside(inner, open, close, st); end.Some? && !end.value.quoted && end.value.depth == 1
  {
    var text := inner + ([close] + tail);
    if inner == "" {
      assert text == [close] + tail;
      assert text[0] == close;
    } else {
      var next := st.Consume(inner[0], open, close);
      assert text[0] == inner[0] && text[1..] == inner[1..] + ([close] + tail);
      InsideCloses(inner[1..], tail, open, close, next);
    }
  }

  /** matchingSlotDelimiter finds the closing delimiter written for a pair exactly when the
      text between is enclosed. */
  lemma MatchingIffEnclosed(inner: string, tail: string, open: char, close: char)
    requires open != close && !IsQuote(open) && !IsQuote(close)
    ensures MatchingDelimiter([open] + inner + [close] + tail, 0, open, close) == |inner| + 1 <==> Enclosed(inner, open, close)
  {
    var text := [open] + inner + [close] + tail;
    assert text[0..] == text && text[0] == open;
    assert text[1..] == inner + ([close] + tail);
    InsideCloses(inner, tail, open, close, ENTERED);
  }
}
