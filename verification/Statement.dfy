/** One SQL statement as a person or an agent gives it: the recursive tokenizer that says what the
    text means, and the verdict readStatement has to reach from it. */
module StatementSpec {
  import opened ByteText

  datatype Kind = LineComment | BlockComment | Quoted | Parameter | DollarBody | Semicolon | Plain

  datatype Problem = OpenComment | OpenQuote | OpenBody | SecondStatement | NoStatement

  /** One token: the bytes from `start` to `end`, or the construct that starts at `start` and never ends. */
  datatype Token =
    | Tok(kind: Kind, start: nat, end: nat)
    | Open(kind: Kind, start: nat, problem: Problem)

  /** The end of the line comment at `i`: its newline, or the end of the text. */
  function LineEnd(s: string, i: nat): (e: nat)
    requires i <= |s|
    ensures i <= e <= |s|
    ensures forall j :: i <= j < e ==> s[j] != '\n'
    ensures e < |s| ==> s[e] == '\n'
    decreases |s| - i
  {
    if i == |s| || s[i] == '\n' then i else LineEnd(s, i + 1)
  }

  /** The end of the block comment whose inside starts at `i`: comments nest, so one that opens inside
      is read to its own end first. */
  function BlockEnd(s: string, i: nat): (e: Option<nat>)
    requires i <= |s|
    ensures e.Some? ==> i + 2 <= e.value <= |s| && s[e.value - 1] == '/' && s[e.value - 2] == '*'
    decreases |s| - i
  {
    if Pair(s, i, '*', '/') then Some(i + 2)
    else if Pair(s, i, '/', '*') then
      var inner := BlockEnd(s, i + 2);
      if inner.None? then None else BlockEnd(s, inner.value)
    else if i == |s| then None
    else BlockEnd(s, i + 1)
  }

  /** The end of the quoted text whose inside starts at `i`: a doubled quote stands for itself, and in
      an E'...' string a backslash takes the next byte with it. */
  function QuoteEnd(s: string, i: nat, q: char, escapes: bool): (e: Option<nat>)
    ensures e.Some? ==> i < e.value <= |s| && s[e.value - 1] == q
    decreases |s| - i
  {
    if i >= |s| then None
    else if escapes && s[i] == '\\' then QuoteEnd(s, i + 2, q, escapes)
    else if s[i] != q then QuoteEnd(s, i + 1, q, escapes)
    else if i + 1 < |s| && s[i + 1] == q then QuoteEnd(s, i + 2, q, escapes)
    else Some(i + 1)
  }

  /** The quote at `i` opens an E'...' string: an E stands before it, and is not the end of a longer word. */
  predicate Escapes(s: string, i: nat)
    requires i < |s|
  {
    s[i] == '\'' && i > 0 && (s[i - 1] == 'E' || s[i - 1] == 'e') && (i < 2 || !IsIdentByte(s[i - 2]))
  }

  function DigitsEnd(s: string, i: nat): (e: nat)
    requires i <= |s|
    ensures i <= e <= |s|
    ensures forall j :: i <= j < e ==> IsDigit(s[j])
    ensures e < |s| ==> !IsDigit(s[e])
    decreases |s| - i
  {
    if i == |s| || !IsDigit(s[i]) then i else DigitsEnd(s, i + 1)
  }

  function IdentEnd(s: string, i: nat): (e: nat)
    requires i <= |s|
    ensures i <= e <= |s|
    ensures forall j :: i <= j < e ==> IsIdentByte(s[j])
    ensures e < |s| ==> !IsIdentByte(s[e])
    decreases |s| - i
  {
    if i == |s| || !IsIdentByte(s[i]) then i else IdentEnd(s, i + 1)
  }

  /** The end of the $tag$ at `i`: a dollar, an identifier that does not start with a digit (or nothing),
      and a dollar. */
  function TagEnd(s: string, i: nat): (e: Option<nat>)
    requires i < |s| && s[i] == '$'
    ensures e.Some? ==> i + 2 <= e.value <= |s| && s[e.value - 1] == '$'
  {
    var j := IdentEnd(s, i + 1);
    if j < |s| && s[j] == '$' && !(i + 1 < |s| && IsDigit(s[i + 1])) then Some(j + 1) else None
  }

  /** A dollar right after an identifier byte is part of the identifier. */
  predicate FreeDollar(s: string, i: nat)
    requires i < |s|
  {
    s[i] == '$' && (i == 0 || !IsIdentByte(s[i - 1]))
  }

  /** What every token is known by: it starts inside the text and ends after its start, a parameter is a
      dollar and digits, and a semicolon is one. */
  predicate Fits(s: string, t: Token) {
    && t.start < |s|
    && (t.Tok? ==> t.start < t.end <= |s|)
    && (t.kind == Parameter ==> t.Tok? && s[t.start] == '$' && forall j :: t.start < j < t.end ==> IsDigit(s[j]))
    && (t.kind == Semicolon ==> s[t.start] == ';')
  }

  /** The token at `i`. */
  function Lex(s: string, i: nat): (t: Token)
    requires i < |s|
    ensures t.start == i && Fits(s, t)
  {
    var c := s[i];
    if Pair(s, i, '-', '-') then Tok(LineComment, i, LineEnd(s, i))
    else if Pair(s, i, '/', '*') then
      var e := BlockEnd(s, i + 2);
      if e.None? then Open(BlockComment, i, OpenComment) else Tok(BlockComment, i, e.value)
    else if c == '\'' || c == '"' then
      var e := QuoteEnd(s, i + 1, c, Escapes(s, i));
      if e.None? then Open(Quoted, i, OpenQuote) else Tok(Quoted, i, e.value)
    else if FreeDollar(s, i) && i + 1 < |s| && IsDigit(s[i + 1]) then Tok(Parameter, i, DigitsEnd(s, i + 1))
    else if FreeDollar(s, i) && TagEnd(s, i).Some? then
      var j := TagEnd(s, i).value;
      var close := IndexFrom(s, s[i..j], j);
      if close.None? then Open(DollarBody, i, OpenBody) else Tok(DollarBody, i, close.value + (j - i))
    else if c == ';' then Tok(Semicolon, i, i + 1)
    else Tok(Plain, i, i + 1)
  }

  /** The tokens of `s` from `i` on, up to the first that never ends. */
  function Tokens(s: string, i: nat): (ts: seq<Token>)
    requires i <= |s|
    ensures TokensOf(s, ts)
    decreases |s| - i
  {
    if i == |s| then []
    else
      var t := Lex(s, i);
      if t.Open? then [t] else [t] + Tokens(s, t.end)
  }

  const MAX_INT: nat := 0x7FFF_FFFF_FFFF_FFFF

  function Decimal(digits: string): (n: nat)
    requires forall c :: c in digits ==> IsDigit(c)
  {
    if digits == "" then 0
    else
      assert IsDigit(digits[|digits| - 1]);
      Decimal(digits[..|digits| - 1]) * 10 + (digits[|digits| - 1] as int - '0' as int)
  }

  /** What a parameter token says: its number when an int can hold it (strconv.Atoi), else nothing. */
  function ParamValue(s: string, t: Token): (n: nat)
    requires Fits(s, t)
    ensures n <= MAX_INT
  {
    if t.kind == Parameter then
      var n := Decimal(s[t.start + 1..t.end]);
      if n <= MAX_INT then n else 0
    else 0
  }

  /** What may follow the statement's semicolon. */
  predicate Trailing(s: string, t: Token)
    requires Fits(s, t)
  {
    t.kind == LineComment || t.kind == BlockComment || t.kind == Semicolon || IsByteSpace(s[t.start])
  }

  predicate TokensOf(s: string, ts: seq<Token>) {
    forall k :: 0 <= k < |ts| ==> Fits(s, ts[k])
  }

  /** What a left-to-right pass over the tokens has found: the first semicolon and the highest parameter. */
  datatype Found = Found(semi: Option<nat>, maxParam: nat)

  datatype Outcome<T> = Good(value: T) | Bad(problem: Problem)

  function Max(a: nat, b: nat): nat { if a < b then b else a }

  function Pass(s: string, ts: seq<Token>, f: Found): (r: Outcome<Found>)
    requires TokensOf(s, ts)
  {
    if ts == [] then Good(f)
    else
      var t := ts[0];
      if f.semi.Some? && !Trailing(s, t) then Bad(SecondStatement)
      else if t.Open? then Bad(t.problem)
      else
        Pass(s, ts[1..], Found(if t.kind == Semicolon && f.semi.None? then Some(t.start) else f.semi,
                               Max(f.maxParam, ParamValue(s, t))))
  }

  /** One statement: its text without the semicolon, its highest parameter and its first keyword. */
  datatype Statement = Statement(sql: string, maxParam: nat, firstWord: string)

  /** The text before the first top-level semicolon. */
  function Body(s: string, semi: Option<nat>): (b: string)
  {
    if semi.Some? && semi.value <= |s| then TrimSpace(s[..semi.value]) else s
  }

  /** Where the first keyword is looked for, as firstWord does it: past blanks and opening parentheses,
      past a comment (a block comment is taken to end at the first closing mark, wherever that is), until
      neither is left. */
  function CodeLead(s: string, i: nat): (e: nat)
    requires i <= |s|
    ensures i <= e <= |s|
    decreases |s| - i
  {
    var j := SkipBlanks(s, i);
    if Pair(s, j, '-', '-') then
      var nl := LineEnd(s, j);
      if nl == |s| then |s| else CodeLead(s, nl + 1)
    else if Pair(s, j, '/', '*') then
      var close := PairFrom(s, j, '*', '/');
      if close.None? then |s| else CodeLead(s, close.value + 2)
    else j
  }

  /** strings.TrimLeftFunc over white space and opening parentheses. */
  function SkipBlanks(s: string, i: nat): (j: nat)
    requires i <= |s|
    ensures i <= j <= |s|
    decreases |s| - i
  {
    if i < |s| && s[i] == '(' then SkipBlanks(s, i + 1)
    else if SpaceAt(s, i) > 0 then SkipBlanks(s, i + SpaceAt(s, i))
    else i
  }

  /** The statement in `sql`, or why there is none; `leadingWord` is the upper-cased run of letters a
      text starts with. */
  function Read(sql: string, leadingWord: string -> string): (r: Outcome<Statement>)
  {
    var s := TrimSpace(sql);
    Conclude(s, Scan(s), leadingWord)
  }

  /** The whole pass over a trimmed text. */
  function Scan(s: string): (r: Outcome<Found>)
  {
    Pass(s, Tokens(s, 0), Found(None, 0))
  }

  /** The end of the pass: the part before the semicolon, unless it is blank. */
  function Conclude(s: string, p: Outcome<Found>, leadingWord: string -> string): (r: Outcome<Statement>)
  {
    if p.Bad? then Bad(p.problem)
    else
      var body := Body(s, p.value.semi);
      if body == "" then Bad(NoStatement)
      else Good(Statement(body, p.value.maxParam, leadingWord(body[CodeLead(body, 0)..])))
  }

  /** A semicolon the pass reports stands in the text. */
  lemma {:induction false} PassSemi(s: string, ts: seq<Token>, f: Found)
    requires TokensOf(s, ts) && (f.semi.Some? ==> f.semi.value < |s| && s[f.semi.value] == ';')
    ensures
      var p := Pass(s, ts, f);
      p.Good? && p.value.semi.Some? ==> p.value.semi.value < |s| && s[p.value.semi.value] == ';'
  {
    if ts != [] && ts[0].Tok? {
      var t := ts[0];
      PassSemi(s, ts[1..], Found(if t.kind == Semicolon && f.semi.None? then Some(t.start) else f.semi,
                                 Max(f.maxParam, ParamValue(s, t))));
    }
  }
}
