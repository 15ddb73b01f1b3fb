/** Shell command lines over runes: the reader's meaning (segments and words) and the printer
    (ShellQuote). */
module Shell {

  /** unicode.IsSpace. */
  predicate IsSpaceRune(c: char) {
    var x := c as int;
    || 9 <= x <= 13 || x == 0x20 || x == 0x85 || x == 0xA0 || x == 0x1680
    || 0x2000 <= x <= 0x200A || x == 0x2028 || x == 0x2029 || x == 0x202F || x == 0x205F || x == 0x3000
  }

  function TrimStart(s: string): (r: string)
    ensures |r| <= |s|
  {
    if s != "" && IsSpaceRune(s[0]) then TrimStart(s[1..]) else s
  }

  function TrimEnd(s: string): (r: string)
    ensures |r| <= |s|
  {
    if s != "" && IsSpaceRune(s[|s| - 1]) then TrimEnd(s[..|s| - 1]) else s
  }

  /** strings.TrimSpace, over runes. */
  function Trim(s: string): (r: string)
    ensures |r| <= |s|
  {
    TrimEnd(TrimStart(s))
  }

  predicate AllSpace(t: string) {
    forall i :: 0 <= i < |t| ==> IsSpaceRune(t[i])
  }

  lemma {:induction false} StartIs(s: string) returns (a: string)
    ensures s == a + TrimStart(s) && AllSpace(a) && (TrimStart(s) != "" ==> !IsSpaceRune(TrimStart(s)[0]))
    decreases |s|
  {
    if s != "" && IsSpaceRune(s[0]) {
      var rest := StartIs(s[1..]);
      a := [s[0]] + rest;
    } else {
      a := "";
    }
  }

  lemma {:induction false} EndIs(s: string) returns (b: string)
    ensures s == TrimEnd(s) + b && AllSpace(b) && (TrimEnd(s) != "" ==> !IsSpaceRune(TrimEnd(s)[|TrimEnd(s)| - 1]))
    decreases |s|
  {
    if s != "" && IsSpaceRune(s[|s| - 1]) {
      var rest := EndIs(s[..|s| - 1]);
      b := rest + [s[|s| - 1]];
    } else {
      b := "";
    }
  }

  /** Trimming cuts off white space at both ends, and nothing else, until neither end is. */
  lemma TrimIs(s: string) returns (a: string, b: string)
    ensures s == a + Trim(s) + b && AllSpace(a) && AllSpace(b)
    ensures Trim(s) != "" ==> !IsSpaceRune(Trim(s)[0]) && !IsSpaceRune(Trim(s)[|Trim(s)| - 1])
  {
    a := StartIs(s);
    b := EndIs(TrimStart(s));
    assert Trim(s) != "" ==> Trim(s)[0] == TrimStart(s)[0];
  }

  /** Inside a quote, or outside every one. */
  datatype Mode = Out | In(quote: char)

  // ---- The reader ----

  /** The words of the rest of a segment: `cur` is what the current word has so far, if one is started. */
  function WordsFrom(s: string, m: Mode, cur: string, started: bool): (ws: seq<string>)
    decreases |s|
  {
    if s == "" then if started then [cur] else []
    else
      var c, rest := s[0], s[1..];
      if m.In? then
        if c == m.quote then WordsFrom(rest, Out, cur, started)
        else if c == '\\' && m.quote == '"' && |s| > 1 then WordsFrom(s[2..], m, cur + [s[1]], started)
        else WordsFrom(rest, m, cur + [c], started)
      else if c == '\'' || c == '"' then WordsFrom(rest, In(c), cur, true)
      else if c == '\\' && |s| > 1 then WordsFrom(s[2..], Out, cur + [s[1]], true)
      else if c == ' ' || c == '\t' then
        if started then [cur] + WordsFrom(rest, Out, "", false) else WordsFrom(rest, Out, cur, false)
      else WordsFrom(rest, Out, cur + [c], true)
  }

  /** shellWords. */
  function Words(s: string): (ws: seq<string>) {
    WordsFrom(s, Out, "", false)
  }

  /** One command of a line; `pipes` says its output goes to the next one. */
  datatype Segment = Segment(text: string, pipes: bool)

  /** What a separator makes of the text before it. */
  function Flush(cur: string, pipes: bool): (ss: seq<Segment>) {
    if Trim(cur) == "" then [] else [Segment(Trim(cur), pipes)]
  }

  predicate IsBreak(c: char) {
    c == ';' || c == '\n' || c == '&' || c == '(' || c == ')'
  }

  /** The segments of the rest of a line: `cur` is the text of the current one so far. */
  function SegmentsFrom(s: string, m: Mode, cur: string): (ss: seq<Segment>)
    decreases |s|
  {
    if s == "" then Flush(cur, false)
    else
      var c, rest := s[0], s[1..];
      if m.In? then
        if c == m.quote then SegmentsFrom(rest, Out, cur + [c])
        else if c == '\\' && m.quote == '"' && |s| > 1 then SegmentsFrom(s[2..], m, cur + [c, s[1]])
        else SegmentsFrom(rest, m, cur + [c])
      else if c == '\'' || c == '"' then SegmentsFrom(rest, In(c), cur + [c])
      else if c == '|' then
        if |s| > 1 && s[1] == '|' then Flush(cur, false) + SegmentsFrom(s[2..], Out, "")
        else if |s| > 1 && s[1] == '&' then Flush(cur, true) + SegmentsFrom(s[2..], Out, "")
        else Flush(cur, true) + SegmentsFrom(rest, Out, "")
      else if IsBreak(c) then Flush(cur, false) + SegmentsFrom(rest, Out, "")
      else SegmentsFrom(rest, Out, cur + [c])
  }

  /** splitSegments. */
  function Segments(s: string): (ss: seq<Segment>) {
    SegmentsFrom(s, Out, "")
  }

  // ---- The printer ----

  /** The characters ShellQuote leaves bare. */
  predicate IsSafe(c: char) {
    'a' <= c <= 'z' || 'A' <= c <= 'Z' || '0' <= c <= '9' || c in "-_./=:,@%+"
  }

  predicate Bare(s: string) {
    s != "" && forall i :: 0 <= i < |s| ==> IsSafe(s[i])
  }

  /** strings.ReplaceAll(s, "'", `'\''`). */
  function Escaped(s: string): (r: string)
    decreases |s|
  {
    if s == "" then ""
    else (if s[0] == '\'' then "'\\''" else [s[0]]) + Escaped(s[1..])
  }

  function Quote(s: string): (r: string)
    ensures r != ""
  {
    if Bare(s) then s else "'" + Escaped(s) + "'"
  }

  /** strings.Join(words quoted one by one, " "). */
  function PrintWords(ws: seq<string>): (r: string)
  {
    if ws == [] then ""
    else if |ws| == 1 then Quote(ws[0])
    else Quote(ws[0]) + " " + PrintWords(ws[1..])
  }

  /** What joins two commands of a line. */
  datatype Joint = Semi | And | Or | Pipe | PipeAnd | Background | NewLine

  function JointText(j: Joint): (r: string) {
    match j
    case Semi => ";"
    case And => "&&"
    case Or => "||"
    case Pipe => "|"
    case PipeAnd => "|&"
    case Background => "&"
    case NewLine => "\n"
  }

  /** The output before the joint goes to the command after it. */
  predicate PipesOn(j: Joint) {
    j == Pipe || j == PipeAnd
  }

  predicate Blank(s: string) {
    forall i :: 0 <= i < |s| ==> s[i] == ' ' || s[i] == '\t'
  }

  /** A line: one command, or a command, the joint after it with blanks around it, and the rest. */
  datatype Line = Last(words: seq<string>) | Then(words: seq<string>, before: string, joint: Joint, after: string, rest: Line)

  predicate ValidLine(l: Line) {
    && l.words != []
    && (l.Then? ==> Blank(l.before) && Blank(l.after) && ValidLine(l.rest))
  }

  function PrintLine(l: Line): (r: string) {
    match l
    case Last(ws) => PrintWords(ws)
    case Then(ws, before, joint, after, rest) =>
      PrintWords(ws) + before + JointText(joint) + after + PrintLine(rest)
  }

  /** The line's commands, each as printed, with whether it pipes into the next. */
  function LineSegments(l: Line): (ss: seq<Segment>) {
    match l
    case Last(ws) => [Segment(PrintWords(ws), false)]
    case Then(ws, _, joint, _, rest) => [Segment(PrintWords(ws), PipesOn(joint))] + LineSegments(rest)
  }

  // ---- When a quoted word passes through the segment reader ----

  /** The segment reader does not know the backslash outside quotes, so each single quote inside a word
      turns the protection over: what comes after it is read bare until the next one. `m` is how the
      next character of the word is read. The word passes when no separator is read bare and the
      closing quote really closes. */
  predicate Passes(w: string, m: Mode)
    decreases |w|
  {
    if w == "" then m == In('\'')
    else
      var c, rest := w[0], w[1..];
      if m == In('"') then
        if c == '"' then Passes(rest, Out)
        else if c == '\\' then rest != "" && Passes(w[2..], m)
        else Passes(rest, m)
      else if m.In? then Passes(rest, if c == '\'' then Out else m)
      else if c == '\'' then Passes(rest, In('\''))
      else if c == '"' then Passes(rest, In('"'))
      else c != '|' && !IsBreak(c) && Passes(rest, Out)
  }

  predicate Survives(w: string) {
    Bare(w) || Passes(w, In('\''))
  }

  predicate LineSurvives(l: Line) {
    && (forall k :: 0 <= k < |l.words| ==> Survives(l.words[k]))
    && (l.Then? ==> LineSurvives(l.rest))
  }
}
