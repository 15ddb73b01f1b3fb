/** SQL as it is written: quoted texts, dollar bodies, nested comments and parameters, printed from what
    they hold. The tokens of a written text are the things it was written from. */
module SqlText {
  import opened ByteText
  import opened StatementSpec

  // ---- What can be written ----

  /** Inside quotes: a byte, a quote written twice, or a byte after a backslash. */
  datatype Item = Char(c: char) | Twice | Slash(c: char)

  /** Inside a comment: a byte, or a comment. */
  datatype Part = Byte(c: char) | Inner(parts: seq<Part>)

  datatype Thing =
    | Other(c: char)
    | Str(items: seq<Item>)
    | EStr(items: seq<Item>)
    | Name(items: seq<Item>)
    | Dollar(tag: string, body: string)
    | Comment(parts: seq<Part>)
    | Remark(text: string)
    | Param(digits: string)
    | End

  function PrintItem(x: Item, q: char): string {
    match x
    case Char(c) => [c]
    case Twice => [q, q]
    case Slash(c) => ['\\', c]
  }

  function PrintItems(items: seq<Item>, q: char): string {
    if items == [] then "" else PrintItem(items[0], q) + PrintItems(items[1..], q)
  }

  function PrintPart(x: Part): string
    decreases x, 0
  {
    match x
    case Byte(c) => [c]
    case Inner(ps) => "/*" + PrintParts(ps) + "*/"
  }

  function PrintParts(parts: seq<Part>): string
    decreases parts, 1
  {
    if parts == [] then "" else PrintPart(parts[0]) + PrintParts(parts[1..])
  }

  function Mark(tag: string): string {
    "$" + tag + "$"
  }

  function Print(x: Thing): (t: string)
    ensures t != ""
  {
    match x
    case Other(c) => [c]
    case Str(items) => "'" + PrintItems(items, '\'') + "'"
    case EStr(items) => "'" + PrintItems(items, '\'') + "'"
    case Name(items) => "\"" + PrintItems(items, '"') + "\""
    case Dollar(tag, body) => Mark(tag) + body + Mark(tag)
    case Comment(parts) => "/*" + PrintParts(parts) + "*/"
    case Remark(t) => "--" + t
    case Param(ds) => "$" + ds
    case End => ";"
  }

  function PrintAll(xs: seq<Thing>): string {
    if xs == [] then "" else Print(xs[0]) + PrintAll(xs[1..])
  }

  // ---- When it can be written there ----

  predicate Starts(t: string, c: char) {
    t != "" && t[0] == c
  }

  predicate EndsIdent(t: string) {
    t != "" && IsIdentByte(t[|t| - 1])
  }

  /** The text ends with the word E. */
  predicate EndsE(t: string) {
    t != "" && (t[|t| - 1] == 'E' || t[|t| - 1] == 'e') && !EndsIdent(t[..|t| - 1])
  }

  /** A quote stands only written twice or, in an E string, after a backslash; there a backslash takes the
      next byte. */
  predicate ItemValid(x: Item, q: char, escapes: bool) {
    match x
    case Char(c) => c != q && (escapes ==> c != '\\')
    case Twice => true
    case Slash(_) => escapes
  }

  predicate ItemsValid(items: seq<Item>, q: char, escapes: bool) {
    forall k :: 0 <= k < |items| ==> ItemValid(items[k], q, escapes)
  }

  /** No byte of a comment opens or closes one together with what follows it. */
  predicate PartValid(x: Part, next: char)
    decreases x, 0
  {
    match x
    case Byte(c) => !(c == '/' && next == '*') && !(c == '*' && next == '/')
    case Inner(ps) => PartsValid(ps)
  }

  predicate PartsValid(parts: seq<Part>)
    decreases parts, 1
  {
    parts == [] || (PartValid(parts[0], (PrintParts(parts[1..]) + "*/")[0]) && PartsValid(parts[1..]))
  }

  predicate TagValid(tag: string) {
    && (forall k :: 0 <= k < |tag| ==> IsIdentByte(tag[k]))
    && !(tag != "" && IsDigit(tag[0]))
  }

  predicate AllDigits(ds: string) {
    ds != "" && forall k :: 0 <= k < |ds| ==> IsDigit(ds[k])
  }

  /** A tag and its dollar follow. */
  ghost predicate TagFollows(rest: string) {
    exists tag: string :: TagValid(tag) && tag + "$" <= rest
  }

  /** The thing stands for itself between what comes before and what comes after. */
  ghost predicate Fitting(pre: string, x: Thing, rest: string) {
    match x
    case Other(c) =>
      && c != ';' && c != '\'' && c != '"'
      && !(c == '-' && Starts(rest, '-')) && !(c == '/' && Starts(rest, '*'))
      && (c == '$' && !EndsIdent(pre) ==> !(rest != "" && IsDigit(rest[0])) && !TagFollows(rest))
    case Str(items) => ItemsValid(items, '\'', false) && !EndsE(pre) && !Starts(rest, '\'')
    case EStr(items) => ItemsValid(items, '\'', true) && EndsE(pre) && !Starts(rest, '\'')
    case Name(items) => ItemsValid(items, '"', false) && !Starts(rest, '"')
    case Dollar(tag, body) =>
      && TagValid(tag) && !EndsIdent(pre)
      && forall k :: 0 <= k < |body| ==> !At(body + Mark(tag), k, Mark(tag))
    case Comment(parts) => PartsValid(parts)
    case Remark(t) => '\n' !in t && (rest == "" || rest[0] == '\n')
    case Param(ds) => AllDigits(ds) && !EndsIdent(pre) && !(rest != "" && IsDigit(rest[0]))
    case End => true
  }

  ghost predicate Written(pre: string, xs: seq<Thing>)
    decreases |xs|
  {
    xs == [] || (Fitting(pre, xs[0], PrintAll(xs[1..])) && Written(pre + Print(xs[0]), xs[1..]))
  }

  function KindOf(x: Thing): Kind {
    match x
    case Other(_) => Plain
    case Str(_) => Quoted
    case EStr(_) => Quoted
    case Name(_) => Quoted
    case Dollar(_, _) => DollarBody
    case Comment(_) => BlockComment
    case Remark(_) => LineComment
    case Param(_) => Parameter
    case End => Semicolon
  }

  /** One token for each thing, where it was printed. */
  function TokensAt(xs: seq<Thing>, i: nat): seq<Token> {
    if xs == [] then []
    else [Tok(KindOf(xs[0]), i, i + |Print(xs[0])|)] + TokensAt(xs[1..], i + |Print(xs[0])|)
  }

  // ---- Each thing is read as one token ----

  lemma After(s: string, i: nat, h: string, u: string)
    requires i <= |s| && s[i..] == h + u
    ensures i + |h| + |u| == |s| && s[i + |h|..] == u
    ensures forall k :: 0 <= k < |h| ==> s[i + k] == h[k]
    ensures u != "" ==> s[i + |h|] == u[0]
  {
    assert s[i..][|h|..] == s[i + |h|..];
    assert forall k :: 0 <= k < |h| ==> s[i + k] == s[i..][k];
  }

  lemma QuoteStep(s: string, i: nat, x: Item, q: char, escapes: bool)
    requires ItemValid(x, q, escapes) && q != '\\'
    requires i + |PrintItem(x, q)| <= |s| && forall k :: 0 <= k < |PrintItem(x, q)| ==> s[i + k] == PrintItem(x, q)[k]
    ensures QuoteEnd(s, i, q, escapes) == QuoteEnd(s, i + |PrintItem(x, q)|, q, escapes)
  {
    assert s[i] == PrintItem(x, q)[0];
    if !x.Char? {
      assert s[i + 1] == PrintItem(x, q)[1];
    }
  }

  lemma QuoteCloses(s: string, i: nat, q: char, escapes: bool, rest: string)
    requires i <= |s| && s[i..] == [q] + rest && !Starts(rest, q) && q != '\\'
    ensures |rest| <= |s| && QuoteEnd(s, i, q, escapes) == Some(|s| - |rest|)
  {
    After(s, i, [q], rest);
  }

  lemma {:induction false} ItemsEnd(s: string, i: nat, items: seq<Item>, q: char, escapes: bool, rest: string)
    requires i <= |s| && s[i..] == PrintItems(items, q) + [q] + rest && !Starts(rest, q)
    requires ItemsValid(items, q, escapes) && q != '\\'
    ensures |rest| <= |s| && QuoteEnd(s, i, q, escapes) == Some(|s| - |rest|)
    decreases |items|
  {
    hide QuoteEnd, PrintItem, ItemValid;
    if items == [] {
      assert s[i..] == [q] + rest;
      QuoteCloses(s, i, q, escapes, rest);
    } else {
      var head, u := PrintItem(items[0], q), PrintItems(items[1..], q) + [q] + rest;
      assert s[i..] == head + u;
      After(s, i, head, u);
      QuoteStep(s, i, items[0], q, escapes);
      ItemsEnd(s, i + |head|, items[1..], q, escapes, rest);
    }
  }

  lemma BlockPasses(s: string, i: nat, c: char, u: string)
    requires i <= |s| && s[i..] == [c] + u && u != "" && PartValid(Byte(c), u[0])
    ensures i < |s| && BlockEnd(s, i) == BlockEnd(s, i + 1)
  {
    After(s, i, [c], u);
  }

  lemma BlockNests(s: string, i: nat, v: string)
    requires i <= |s| && s[i..] == "/*" + v
    ensures i + 2 <= |s| && s[i + 2..] == v
    ensures BlockEnd(s, i) == if BlockEnd(s, i + 2).None? then None else BlockEnd(s, BlockEnd(s, i + 2).value)
  {
    After(s, i, "/*", v);
  }

  lemma BlockCloses(s: string, i: nat, rest: string)
    requires i <= |s| && s[i..] == "*/" + rest
    ensures |rest| <= |s| && BlockEnd(s, i) == Some(|s| - |rest|)
  {
    After(s, i, "*/", rest);
  }

  lemma {:induction false} PartsEnd(s: string, i: nat, parts: seq<Part>, rest: string)
    requires i <= |s| && s[i..] == PrintParts(parts) + "*/" + rest && PartsValid(parts)
    ensures |rest| <= |s| && BlockEnd(s, i) == Some(|s| - |rest|)
    decreases parts
  {
    hide BlockEnd;
    if parts == [] {
      assert s[i..] == "*/" + rest;
      BlockCloses(s, i, rest);
    } else {
      var tail := PrintParts(parts[1..]) + "*/";
      var u := tail + rest;
      assert s[i..] == PrintPart(parts[0]) + u && u[0] == tail[0];
      hide PrintParts;
      match parts[0]
      case Byte(c) =>
        BlockPasses(s, i, c, u);
        After(s, i, [c], u);
        PartsEnd(s, i + 1, parts[1..], rest);
      case Inner(ps) =>
        InnerEnd(s, i, ps, u);
        PartsEnd(s, i + 2, ps, u);
        PartsEnd(s, |s| - |u|, parts[1..], rest);
    }
  }

  /** A comment in a comment, and what comes after it. */
  lemma InnerEnd(s: string, i: nat, ps: seq<Part>, u: string)
    requires i <= |s| && s[i..] == "/*" + PrintParts(ps) + "*/" + u
    ensures i + 2 <= |s| && s[i + 2..] == PrintParts(ps) + "*/" + u && |u| <= |s| && s[|s| - |u|..] == u
    ensures BlockEnd(s, i) == if BlockEnd(s, i + 2).None? then None else BlockEnd(s, BlockEnd(s, i + 2).value)
  {
    hide BlockEnd, PrintParts;
    var v := PrintParts(ps) + "*/" + u;
    assert "/*" + PrintParts(ps) + "*/" + u == "/*" + v;
    BlockNests(s, i, v);
    After(s, i + 2, PrintParts(ps) + "*/", u);
  }

  // A thing between what comes before and what comes after.

  lemma QuoteLex(pre: string, items: seq<Item>, q: char, rest: string)
    requires (q == '\'' || q == '"') && ItemsValid(items, q, q == '\'' && EndsE(pre)) && !Starts(rest, q)
    ensures
      var t := [q] + PrintItems(items, q) + [q];
      Lex(pre + t + rest, |pre|) == Tok(Quoted, |pre|, |pre| + |t|)
  {
    hide PrintItems, ItemsValid, QuoteEnd, Escapes, EndsE;
    var t := [q] + PrintItems(items, q) + [q];
    var s, i := pre + t + rest, |pre|;
    var u := PrintItems(items, q) + [q] + rest;
    assert s[i..] == [q] + u;
    After(s, i, [q], u);
    assert pre < s;
    EscapesIffE(pre, s);
    ItemsEnd(s, i + 1, items, q, q == '\'' && EndsE(pre), rest);
    LexOfQuote(s, i);
  }

  lemma LexOfQuote(s: string, i: nat)
    requires i < |s| && (s[i] == '\'' || s[i] == '"') && QuoteEnd(s, i + 1, s[i], Escapes(s, i)).Some?
    ensures Lex(s, i) == Tok(Quoted, i, QuoteEnd(s, i + 1, s[i], Escapes(s, i)).value)
  {
    hide QuoteEnd, Escapes;
  }

  lemma EscapesIffE(pre: string, s: string)
    requires pre < s
    ensures Escapes(s, |pre|) <==> s[|pre|] == '\'' && EndsE(pre)
  {
    var n := |pre|;
    assert forall k :: 0 <= k < n ==> s[k] == pre[k];
  }

  lemma FreeIffNoIdent(pre: string, s: string)
    requires pre < s
    ensures FreeDollar(s, |pre|) <==> s[|pre|] == '$' && !EndsIdent(pre)
  {
    assert forall k :: 0 <= k < |pre| ==> s[k] == pre[k];
  }

  lemma CommentLex(pre: string, parts: seq<Part>, rest: string)
    requires PartsValid(parts)
    ensures
      var x := Comment(parts);
      Lex(pre + Print(x) + rest, |pre|) == Tok(BlockComment, |pre|, |pre| + |Print(x)|)
  {
    hide PrintParts, PartsValid, BlockEnd;
    var t := Print(Comment(parts));
    var s, i := pre + t + rest, |pre|;
    var v := PrintParts(parts) + "*/" + rest;
    assert s[i..] == "/*" + v;
    After(s, i, "/*", v);
    PartsEnd(s, i + 2, parts, rest);
  }

  lemma RemarkLex(pre: string, t: string, rest: string)
    requires Fitting(pre, Remark(t), rest)
    ensures
      var x := Remark(t);
      Lex(pre + Print(x) + rest, |pre|) == Tok(LineComment, |pre|, |pre| + |Print(x)|)
  {
    var s, i := pre + ("--" + t) + rest, |pre|;
    assert s[i..] == ("--" + t) + rest;
    After(s, i, "--" + t, rest);
    LineEndIs(s, i, i + 2 + |t|);
  }

  lemma {:induction false} LineEndIs(s: string, i: nat, e: nat)
    requires i <= e <= |s| && (forall k :: i <= k < e ==> s[k] != '\n') && (e < |s| ==> s[e] == '\n')
    ensures LineEnd(s, i) == e
    decreases e - i
  {
    if i < e { LineEndIs(s, i + 1, e); }
  }

  lemma ParamLex(pre: string, ds: string, rest: string)
    requires AllDigits(ds) && !EndsIdent(pre) && !(rest != "" && IsDigit(rest[0]))
    ensures
      var x := Param(ds);
      Lex(pre + Print(x) + rest, |pre|) == Tok(Parameter, |pre|, |pre| + |Print(x)|)
  {
    hide DigitsEnd, FreeDollar, EndsIdent, AllDigits;
    var s, i := pre + ("$" + ds) + rest, |pre|;
    assert s[i..] == "$" + (ds + rest);
    After(s, i, "$", ds + rest);
    assert pre < s;
    FreeIffNoIdent(pre, s);
    DigitsAfter(s, i + 1, ds, rest);
    LexOfParam(s, i);
  }

  lemma DigitsAfter(s: string, i: nat, ds: string, rest: string)
    requires i <= |s| && s[i..] == ds + rest && AllDigits(ds) && !(rest != "" && IsDigit(rest[0]))
    ensures i < |s| && IsDigit(s[i]) && DigitsEnd(s, i) == i + |ds|
  {
    hide DigitsEnd;
    After(s, i, ds, rest);
    assert forall k :: i <= k < i + |ds| ==> s[k] == ds[k - i];
    DigitsEndIs(s, i, i + |ds|);
  }

  lemma LexOfParam(s: string, i: nat)
    requires i + 1 < |s| && FreeDollar(s, i) && IsDigit(s[i + 1])
    ensures Lex(s, i) == Tok(Parameter, i, DigitsEnd(s, i + 1))
  {
    hide DigitsEnd;
  }

  lemma {:induction false} DigitsEndIs(s: string, i: nat, e: nat)
    requires i <= e <= |s| && (forall k :: i <= k < e ==> IsDigit(s[k])) && (e < |s| ==> !IsDigit(s[e]))
    ensures DigitsEnd(s, i) == e
    decreases e - i
  {
    if i < e { DigitsEndIs(s, i + 1, e); }
  }

  lemma {:induction false} IdentEndIs(s: string, i: nat, e: nat)
    requires i <= e <= |s| && (forall k :: i <= k < e ==> IsIdentByte(s[k])) && (e < |s| ==> !IsIdentByte(s[e]))
    ensures IdentEnd(s, i) == e
    decreases e - i
  {
    if i < e { IdentEndIs(s, i + 1, e); }
  }

  /** A mark is read as one. */
  lemma TagEndIs(s: string, i: nat, tag: string, u: string)
    requires i <= |s| && s[i..] == Mark(tag) + u && TagValid(tag)
    ensures i < |s| && s[i] == '$' && TagEnd(s, i) == Some(i + |tag| + 2)
  {
    After(s, i, Mark(tag), u);
    assert forall k :: 0 <= k < |tag| ==> s[i + 1 + k] == Mark(tag)[1 + k] == tag[k];
    assert forall k :: i + 1 <= k < i + 1 + |tag| ==> s[k] == tag[k - i - 1];
    assert s[i + 1 + |tag|] == Mark(tag)[1 + |tag|] == '$';
    IdentEndIs(s, i + 1, i + 1 + |tag|);
  }

  lemma DollarLex(pre: string, tag: string, body: string, rest: string)
    requires TagValid(tag) && !EndsIdent(pre) && forall k :: 0 <= k < |body| ==> !At(body + Mark(tag), k, Mark(tag))
    ensures
      var x := Dollar(tag, body);
      Lex(pre + Print(x) + rest, |pre|) == Tok(DollarBody, |pre|, |pre| + |Print(x)|)
  {
    hide FreeDollar, EndsIdent, At, TagValid, Lex;
    var m := Mark(tag);
    var s, i := pre + (m + body + m) + rest, |pre|;
    assert s[i] == m[0] == '$';
    assert pre < s;
    FreeIffNoIdent(pre, s);
    assert s[i..] == m + (body + m + rest);
    DollarAt(s, i, tag, body, rest);
  }

  lemma DollarAt(s: string, i: nat, tag: string, body: string, rest: string)
    requires i < |s| && FreeDollar(s, i) && s[i..] == Mark(tag) + (body + Mark(tag) + rest)
    requires TagValid(tag) && forall k :: 0 <= k < |body| ==> !At(body + Mark(tag), k, Mark(tag))
    ensures Lex(s, i) == Tok(DollarBody, i, i + |Mark(tag) + body + Mark(tag)|)
  {
    hide TagEnd, IndexFrom, FreeDollar, At, TagValid, Lex, IsDigit, Mark;
    var m := Mark(tag);
    MarkDigit(tag);
    var u := body + m + rest;
    After(s, i, m, u);
    TagEndIs(s, i, tag, u);
    var j := i + |m|;
    assert s[i..j] == s[i..][..|m|] == m;
    assert s[i + 1] == m[1];
    FirstMark(s, j, body, m, rest);
    LexOfDollar(s, i);
  }

  lemma MarkDigit(tag: string)
    requires TagValid(tag)
    ensures |Mark(tag)| == |tag| + 2 && !IsDigit(Mark(tag)[1])
  {
  }

  lemma LexOfDollar(s: string, i: nat)
    requires i + 1 < |s| && FreeDollar(s, i) && !IsDigit(s[i + 1]) && TagEnd(s, i).Some?
    ensures
      var j := TagEnd(s, i).value;
      var close := IndexFrom(s, s[i..j], j);
      Lex(s, i) == if close.None? then Open(DollarBody, i, OpenBody) else Tok(DollarBody, i, close.value + (j - i))
  {
    hide TagEnd, IndexFrom;
  }

  lemma SameSlice(s: string, j: nat, t: string, a: nat, b: nat)
    requires j + |t| <= |s| && a <= b <= |t| && forall k :: 0 <= k < |t| ==> s[j + k] == t[k]
    ensures s[j + a..j + b] == t[a..b]
  {
  }

  lemma FirstMark(s: string, j: nat, body: string, m: string, rest: string)
    requires j <= |s| && s[j..] == body + m + rest
    requires forall k :: 0 <= k < |body| ==> !At(body + m, k, m)
    ensures IndexFrom(s, m, j) == Some(j + |body|)
  {
    var t := body + m;
    assert s[j..] == t + rest;
    After(s, j, t, rest);
    hide IndexFrom;
    assert s[j + |body|..j + |t|] == m by { SameSlice(s, j, t, |body|, |t|); }
    forall k: nat | j <= k < j + |body| ensures !At(s, k, m) {
      SameSlice(s, j, t, k - j, k - j + |m|);
      assert !At(t, k - j, m);
    }
    assert At(s, j + |body|, m);
  }

  /** Any other byte is a token of its own. */
  lemma OtherLex(pre: string, c: char, rest: string)
    requires Fitting(pre, Other(c), rest)
    ensures Lex(pre + [c] + rest, |pre|) == Tok(Plain, |pre|, |pre| + 1)
  {
    var s, i := pre + [c] + rest, |pre|;
    assert s[i..] == [c] + rest;
    After(s, i, [c], rest);
    assert pre < s;
    FreeIffNoIdent(pre, s);
    if FreeDollar(s, i) {
      NoTagEnd(s, i, rest);
    }
    hide TagEnd, FreeDollar;
  }

  lemma NoTagEnd(s: string, i: nat, rest: string)
    requires i < |s| && s[i] == '$' && s[i + 1..] == rest && !TagFollows(rest)
    ensures TagEnd(s, i).None?
  {
    var j := IdentEnd(s, i + 1);
    var tag := rest[..j - i - 1];
    assert forall k :: 0 <= k < |rest| ==> rest[k] == s[i + 1 + k];
    if j < |s| && s[j] == '$' {
      assert rest[..|tag| + 1] == tag + "$";
      assert tag + "$" <= rest;
      assert !TagValid(tag);
    }
  }

  lemma EndLex(pre: string, rest: string)
    ensures Lex(pre + ";" + rest, |pre|) == Tok(Semicolon, |pre|, |pre| + 1)
  {
    var s, i := pre + ";" + rest, |pre|;
    assert s[i] == ';';
  }

  lemma ThingLex(pre: string, x: Thing, rest: string)
    requires Fitting(pre, x, rest)
    ensures Lex(pre + Print(x) + rest, |pre|) == Tok(KindOf(x), |pre|, |pre| + |Print(x)|)
  {
    hide Lex, PrintItems, PrintParts, ItemsValid, PartsValid, EndsE, EndsIdent, At, TagValid, AllDigits, TagFollows;
    match x
    case Other(c) => OtherLex(pre, c, rest);
    case Str(items) => QuoteLex(pre, items, '\'', rest);
    case EStr(items) => QuoteLex(pre, items, '\'', rest);
    case Name(items) => QuoteLex(pre, items, '"', rest);
    case Dollar(tag, body) => DollarLex(pre, tag, body, rest);
    case Comment(parts) => CommentLex(pre, parts, rest);
    case Remark(t) => RemarkLex(pre, t, rest);
    case Param(ds) => ParamLex(pre, ds, rest);
    case End => EndLex(pre, rest);
  }

  lemma TokensStep(s: string, i: nat)
    requires i < |s| && Lex(s, i).Tok?
    ensures Tokens(s, i) == [Lex(s, i)] + Tokens(s, Lex(s, i).end)
  {
    hide Lex;
  }

  lemma {:induction false} WrittenTokens(pre: string, xs: seq<Thing>)
    requires Written(pre, xs)
    ensures Tokens(pre + PrintAll(xs), |pre|) == TokensAt(xs, |pre|)
    decreases |xs|
  {
    hide Fitting, Lex, Print, Tokens, TokensOf;
    if xs == [] {
      assert pre + PrintAll(xs) == pre;
      NoTokens(pre);
    } else {
      var t, rest := Print(xs[0]), PrintAll(xs[1..]);
      var s := pre + t + rest;
      assert pre + (t + rest) == s;
      ThingLex(pre, xs[0], rest);
      TokensStep(s, |pre|);
      assert |pre + t| == |pre| + |t|;
      WrittenTokens(pre + t, xs[1..]);
    }
  }

  lemma NoTokens(s: string)
    ensures Tokens(s, |s|) == []
  {
  }

  /** The tokens of a written text are the things it was written from, one for one. */
  lemma WriteReads(xs: seq<Thing>)
    requires Written("", xs)
    ensures Tokens(PrintAll(xs), 0) == TokensAt(xs, 0)
  {
    WrittenTokens("", xs);
    assert "" + PrintAll(xs) == PrintAll(xs);
  }
}
