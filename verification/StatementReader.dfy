/** readStatement as the code runs it: one index moving over the bytes, proved to reach the verdict of
    the recursive tokenizer. */
module StatementReader {
  import opened ByteText
  import opened StatementSpec

  method SkipLine(s: string, start: nat) returns (i: nat)
    requires start <= |s|
    ensures i == LineEnd(s, start)
  {
    i := start;
    while i < |s| && s[i] != '\n'
      invariant start <= i <= |s|
      invariant LineEnd(s, i) == LineEnd(s, start)
    {
      i := i + 1;
    }
  }

  /** What is left to read at nesting depth `depth`: that many closing marks, each past whatever nests before it. */
  ghost function Close(s: string, i: nat, depth: nat): (e: Option<nat>)
    requires i <= |s|
    decreases depth
  {
    if depth == 0 then Some(i)
    else
      var e := BlockEnd(s, i);
      if e.None? then None else Close(s, e.value, depth - 1)
  }

  /** How each pair of bytes moves the depth counter. */
  lemma CloseStep(s: string, i: nat, depth: nat)
    requires i < |s| && depth > 0
    ensures Pair(s, i, '/', '*') ==> Close(s, i, depth) == Close(s, i + 2, depth + 1)
    ensures Pair(s, i, '*', '/') ==> Close(s, i, depth) == Close(s, i + 2, depth - 1)
    ensures !Pair(s, i, '/', '*') && !Pair(s, i, '*', '/') ==> Close(s, i, depth) == Close(s, i + 1, depth)
  {
    if Pair(s, i, '/', '*') {
      var inner := BlockEnd(s, i + 2);
      if inner.Some? {
        assert Close(s, i + 2, depth + 1) == Close(s, inner.value, depth);
      }
    }
  }

  /** The depth counter finds the end the nested reading finds. */
  method SkipBlock(s: string, start: nat) returns (e: Option<nat>)
    requires start < |s| && Pair(s, start, '/', '*')
    ensures e == BlockEnd(s, start + 2)
  {
    var depth, i := 0, start;
    ghost var want := BlockEnd(s, start + 2);
    while i < |s|
      invariant start <= i <= |s| && depth >= 0
      invariant depth == 0 ==> i == start
      invariant depth > 0 ==> Close(s, i, depth) == want
    {
      if depth > 0 { CloseStep(s, i, depth); }
      if Pair(s, i, '/', '*') {
        if depth == 0 {
          assert Close(s, i + 2, 1) == want by { if want.Some? { assert Close(s, want.value, 0) == want; } }
        }
        depth, i := depth + 1, i + 2;
      } else if Pair(s, i, '*', '/') {
        depth, i := depth - 1, i + 2;
        if depth == 0 {
          break;
        }
      } else {
        i := i + 1;
      }
    }
    e := if depth != 0 then None else Some(i);
  }

  method SkipQuoted(s: string, start: nat) returns (e: Option<nat>)
    requires start < |s| && (s[start] == '\'' || s[start] == '"')
    ensures e == QuoteEnd(s, start + 1, s[start], Escapes(s, start))
  {
    var c := s[start];
    var escapes := c == '\'' && start > 0 && (s[start - 1] == 'E' || s[start - 1] == 'e')
                   && (start < 2 || !IsIdentByte(s[start - 2]));
    var j := start + 1;
    while j < |s|
      invariant start < j
      invariant QuoteEnd(s, j, c, escapes) == QuoteEnd(s, start + 1, c, escapes)
      decreases |s| - j
    {
      if escapes && s[j] == '\\' {
        j := j + 2;
      } else if s[j] == c {
        if j + 1 < |s| && s[j + 1] == c {
          j := j + 2;
        } else {
          break;
        }
      } else {
        j := j + 1;
      }
    }
    e := if j >= |s| then None else Some(j + 1);
  }

  method SkipDigits(s: string, start: nat) returns (j: nat)
    requires start <= |s|
    ensures j == DigitsEnd(s, start)
  {
    j := start;
    while j < |s| && '0' <= s[j] <= '9'
      invariant start <= j <= |s|
      invariant DigitsEnd(s, j) == DigitsEnd(s, start)
    {
      j := j + 1;
    }
  }

  /** dollarTag: where the $tag$ at `start` ends. */
  method DollarTag(s: string, start: nat) returns (e: Option<nat>)
    requires start < |s| && s[start] == '$'
    ensures e == TagEnd(s, start)
  {
    var j := start + 1;
    while j < |s|
      invariant start < j <= |s|
      invariant IdentEnd(s, j) == IdentEnd(s, start + 1)
      invariant j > start + 1 ==> !IsDigit(s[start + 1])
    {
      if s[j] == '$' {
        return Some(j + 1);
      }
      if !IsIdentByte(s[j]) || (j == start + 1 && IsDigit(s[j])) {
        return None;
      }
      j := j + 1;
    }
    return None;
  }

  method FirstWord(s: string, leadingWord: string -> string) returns (w: string)
    requires leadingWord("") == ""
    ensures w == leadingWord(s[CodeLead(s, 0)..])
  {
    hide SkipBlanks, LineEnd, PairFrom;
    var i := 0;
    while true
      invariant 0 <= i <= |s|
      invariant CodeLead(s, i) == CodeLead(s, 0)
      decreases |s| - i
    {
      i := SkipBlanks(s, i);
      if Pair(s, i, '-', '-') {
        var nl := SkipLine(s, i);
        if nl == |s| { return ""; }
        i := nl + 1;
      } else if Pair(s, i, '/', '*') {
        var close := PairFrom(s, i, '*', '/');
        if close.None? { return ""; }
        i := close.value + 2;
      } else {
        break;
      }
    }
    w := leadingWord(s[i..]);
  }

  /** The body of the loop's switch: the token at `i`. */
  method NextToken(s: string, i: nat) returns (t: Token)
    requires i < |s|
    ensures t == Lex(s, i)
  {
    var c := s[i];
    if Pair(s, i, '-', '-') {
      var e := SkipLine(s, i);
      return Tok(LineComment, i, e);
    }
    if Pair(s, i, '/', '*') {
      var e := SkipBlock(s, i);
      return if e.None? then Open(BlockComment, i, OpenComment) else Tok(BlockComment, i, e.value);
    }
    if c == '\'' || c == '"' {
      var e := SkipQuoted(s, i);
      return if e.None? then Open(Quoted, i, OpenQuote) else Tok(Quoted, i, e.value);
    }
    if c == '$' {
      if i + 1 < |s| && IsDigit(s[i + 1]) && (i == 0 || !IsIdentByte(s[i - 1])) {
        var j := SkipDigits(s, i + 1);
        return Tok(Parameter, i, j);
      }
      if i == 0 || !IsIdentByte(s[i - 1]) {
        var tag := DollarTag(s, i);
        if tag.Some? {
          var k := IndexFrom(s, s[i..tag.value], tag.value);
          return if k.None? then Open(DollarBody, i, OpenBody) else Tok(DollarBody, i, k.value + (tag.value - i));
        }
      }
    }
    t := if c == ';' then Tok(Semicolon, i, i + 1) else Tok(Plain, i, i + 1);
  }

  /** The main loop: the first top-level semicolon and the highest parameter, or the first fault. */
  method ScanTokens(s: string) returns (r: Outcome<Found>)
    ensures r == Scan(s)
  {
    var f, i := Found(None, 0), 0;
    while i < |s|
      invariant 0 <= i <= |s|
      invariant Pass(s, Tokens(s, i), f) == Scan(s)
    {
      var c := s[i];
      Unfold(s, i, f);
      var comment := Pair(s, i, '-', '-') || Pair(s, i, '/', '*');
      if f.semi.Some? && !comment && c != ';' && !IsByteSpace(c) {
        return Bad(SecondStatement);
      }
      var t := NextToken(s, i);
      if t.Open? {
        return Bad(t.problem);
      }
      if t.kind == Parameter {
        var n := Decimal(s[i + 1..t.end]);
        if n <= MAX_INT && n > f.maxParam {
          f := f.(maxParam := n);
        }
      } else if t.kind == Semicolon && f.semi.None? {
        f := f.(semi := Some(i));
      }
      i := t.end;
    }
    r := Good(f);
  }

  method ReadStatement(sql: string, leadingWord: string -> string) returns (r: Outcome<Statement>)
    requires leadingWord("") == ""
    ensures r == Read(sql, leadingWord)
  {
    var s := TrimSpace(sql);
    var found := ScanTokens(s);
    if found.Bad? {
      return Bad(found.problem);
    }
    PassSemi(s, Tokens(s, 0), Found(None, 0));
    if found.value.semi.Some? {
      s := TrimSpace(s[..found.value.semi.value]);
    }
    if s == "" {
      return Bad(NoStatement);
    }
    var w := FirstWord(s, leadingWord);
    r := Good(Statement(s, found.value.maxParam, w));
  }

  /** One step of the pass, at position `i`. */
  lemma Unfold(s: string, i: nat, f: Found)
    requires i < |s|
    ensures
      var t := Lex(s, i);
      Pass(s, Tokens(s, i), f)
      == if f.semi.Some? && !Trailing(s, t) then Bad(SecondStatement)
         else if t.Open? then Bad(t.problem)
         else Pass(s, Tokens(s, t.end),
                   Found(if t.kind == Semicolon && f.semi.None? then Some(i) else f.semi, Max(f.maxParam, ParamValue(s, t))))
  {
    var t := Lex(s, i);
    if t.Tok? {
      assert ([t] + Tokens(s, t.end))[1..] == Tokens(s, t.end);
    }
  }
}
