/** Every text whose constructs end can be written, so that the reader accepts exactly what can be written
    as one statement. */
module SqlReading {
  import opened ByteText
  import opened StatementSpec
  import opened StatementTheorems
  import opened SqlText

  // ---- What a token was written from ----

  lemma {:induction false} ItemsOf(s: string, i: nat, q: char, escapes: bool) returns (items: seq<Item>)
    requires i <= |s| && QuoteEnd(s, i, q, escapes).Some?
    ensures
      var e := QuoteEnd(s, i, q, escapes).value;
      s[i..e] == PrintItems(items, q) + [q] && ItemsValid(items, q, escapes) && !Starts(s[e..], q)
    decreases |s| - i
  {
    hide QuoteEnd, PrintItems, ItemsValid, PrintItem, ItemValid;
    var e := QuoteEnd(s, i, q, escapes).value;
    var x := ItemAt(s, i, q, escapes);
    if x.None? {
      items := [];
      NoItems(s, i, q, escapes);
    } else {
      var rest := ItemsOf(s, i + |PrintItem(x.value, q)|, q, escapes);
      items := [x.value] + rest;
      ItemFirst(s, i, e, x.value, rest, q, escapes);
    }
  }

  /** The item at `i`, or none at the closing quote. */
  lemma ItemAt(s: string, i: nat, q: char, escapes: bool) returns (x: Option<Item>)
    requires i <= |s| && QuoteEnd(s, i, q, escapes).Some?
    ensures
      var e := QuoteEnd(s, i, q, escapes).value;
      if x.None? then e == i + 1 && s[i] == q && !Starts(s[e..], q)
      else
        var t := PrintItem(x.value, q);
        && ItemValid(x.value, q, escapes) && |t| > 0 && i + |t| < e && s[i..i + |t|] == t
        && QuoteEnd(s, i + |t|, q, escapes) == Some(e)
  {
    if escapes && s[i] == '\\' {
      x := Some(Slash(s[i + 1]));
      assert s[i..i + 2] == [s[i], s[i + 1]];
    } else if s[i] != q {
      x := Some(Char(s[i]));
    } else if i + 1 < |s| && s[i + 1] == q {
      x := Some(Twice);
      assert s[i..i + 2] == [s[i], s[i + 1]];
    } else {
      x := None;
    }
  }

  lemma NoItems(s: string, i: nat, q: char, escapes: bool)
    requires i < |s| && s[i] == q
    ensures s[i..i + 1] == PrintItems([], q) + [q] && ItemsValid([], q, escapes)
  {
  }

  lemma ItemFirst(s: string, i: nat, e: nat, x: Item, rest: seq<Item>, q: char, escapes: bool)
    requires i + |PrintItem(x, q)| <= e <= |s| && s[i..i + |PrintItem(x, q)|] == PrintItem(x, q)
    requires s[i + |PrintItem(x, q)|..e] == PrintItems(rest, q) + [q] && ItemValid(x, q, escapes) && ItemsValid(rest, q, escapes)
    ensures s[i..e] == PrintItems([x] + rest, q) + [q] && ItemsValid([x] + rest, q, escapes)
  {
    hide PrintItem, ItemValid;
    var n := |PrintItem(x, q)|;
    assert ([x] + rest)[1..] == rest;
    assert s[i..e] == s[i..i + n] + s[i + n..e];
  }

  lemma {:induction false} PartsOf(s: string, i: nat) returns (parts: seq<Part>)
    requires i <= |s| && BlockEnd(s, i).Some?
    ensures s[i..BlockEnd(s, i).value] == PrintParts(parts) + "*/" && PartsValid(parts)
    decreases |s| - i
  {
    hide PrintParts, PrintPart, PartsValid, PartValid;
    if Pair(s, i, '*', '/') {
      parts := [];
      NoParts(s, i);
    } else if Pair(s, i, '/', '*') {
      var ps := PartsOf(s, i + 2);
      var rest := PartsOf(s, BlockEnd(s, i + 2).value);
      parts := [Inner(ps)] + rest;
      hide BlockEnd;
      InnerFirst(s, i, BlockEnd(s, i + 2).value, BlockEnd(s, i).value, ps, rest);
    } else {
      var rest := PartsOf(s, i + 1);
      parts := [Byte(s[i])] + rest;
      hide BlockEnd;
      ByteFirst(s, i, BlockEnd(s, i).value, rest);
    }
  }

  lemma NoParts(s: string, i: nat)
    requires Pair(s, i, '*', '/')
    ensures s[i..i + 2] == PrintParts([]) + "*/" && PartsValid([])
  {
    assert s[i..i + 2] == "*/";
  }

  lemma InnerFirst(s: string, i: nat, m: nat, e: nat, ps: seq<Part>, rest: seq<Part>)
    requires i + 2 <= m <= e <= |s| && Pair(s, i, '/', '*')
    requires s[i + 2..m] == PrintParts(ps) + "*/" && PartsValid(ps)
    requires s[m..e] == PrintParts(rest) + "*/" && PartsValid(rest)
    ensures s[i..e] == PrintParts([Inner(ps)] + rest) + "*/" && PartsValid([Inner(ps)] + rest)
  {
    PartFirst(Inner(ps), rest);
    hide PrintParts, PartsValid;
    assert s[i..e] == s[i..i + 2] + s[i + 2..m] + s[m..e] && s[i..i + 2] == "/*";
  }

  lemma ByteFirst(s: string, i: nat, e: nat, rest: seq<Part>)
    requires i + 1 < e <= |s| && !Pair(s, i, '*', '/') && !Pair(s, i, '/', '*')
    requires s[i + 1..e] == PrintParts(rest) + "*/" && PartsValid(rest)
    ensures s[i..e] == PrintParts([Byte(s[i])] + rest) + "*/" && PartsValid([Byte(s[i])] + rest)
  {
    PartFirst(Byte(s[i]), rest);
    hide PrintParts, PartsValid;
    assert s[i..e] == [s[i]] + s[i + 1..e];
    assert (PrintParts(rest) + "*/")[0] == s[i + 1];
  }

  lemma PartFirst(x: Part, rest: seq<Part>)
    ensures PrintParts([x] + rest) == PrintPart(x) + PrintParts(rest)
    ensures PartsValid([x] + rest) <==> PartValid(x, (PrintParts(rest) + "*/")[0]) && PartsValid(rest)
  {
    assert ([x] + rest)[1..] == rest;
  }

  lemma DollarIs(s: string, i: nat)
    requires i < |s| && Lex(s, i).Tok? && Lex(s, i).kind == DollarBody
    ensures FreeDollar(s, i) && TagEnd(s, i).Some?
    ensures
      var j := TagEnd(s, i).value;
      IndexFrom(s, s[i..j], j).Some? && Lex(s, i).end == IndexFrom(s, s[i..j], j).value + (j - i)
  {
    hide TagEnd, IndexFrom;
  }

  lemma DollarOf(s: string, i: nat) returns (x: Thing)
    requires i < |s| && Lex(s, i).Tok? && Lex(s, i).kind == DollarBody
    ensures var e := Lex(s, i).end; s[i..e] == Print(x) && x.Dollar? && Fitting(s[..i], x, s[e..])
  {
    DollarIs(s, i);
    assert s[i] == '$';
    hide Lex, IndexFrom, TagEnd, FreeDollar, At, TagValid, EndsIdent, Fitting, Print;
    var j := TagEnd(s, i).value;
    var m := s[i..j];
    var close := IndexFrom(s, m, j).value;
    var tag, body := s[i + 1..j - 1], s[j..close];
    x := Dollar(tag, body);
    TagOf(s, i);
    hide Mark;
    assert s[..i] < s;
    FreeIffNoIdent(s[..i], s);
    DollarText(s, i, j, close);
    NotBefore(s, j, close, m);
    DollarFits(s[..i], tag, body, s[close + |m|..]);
  }

  lemma DollarText(s: string, i: nat, j: nat, close: nat)
    requires i <= j <= close <= |s| && At(s, close, s[i..j])
    ensures close + (j - i) <= |s| && s[i..close + (j - i)] == s[i..j] + s[j..close] + s[i..j]
  {
    AtIs(s, close, s[i..j]);
  }

  lemma DollarFits(pre: string, tag: string, body: string, rest: string)
    requires TagValid(tag) && !EndsIdent(pre) && forall k :: 0 <= k < |body| ==> !At(body + Mark(tag), k, Mark(tag))
    ensures Fitting(pre, Dollar(tag, body), rest) && Print(Dollar(tag, body)) == Mark(tag) + body + Mark(tag)
  {
    hide At, TagValid, EndsIdent;
  }

  lemma AtIs(s: string, i: nat, m: string)
    requires At(s, i, m)
    ensures i + |m| <= |s| && s[i..i + |m|] == m
  {
  }

  lemma NotBefore(s: string, j: nat, close: nat, m: string)
    requires j <= close && At(s, close, m) && forall k :: j <= k < close ==> !At(s, k, m)
    ensures forall k :: 0 <= k < close - j ==> !At(s[j..close] + m, k, m)
  {
    var t := s[j..close] + m;
    assert forall n :: 0 <= n < |t| ==> s[j + n] == t[n] by { assert s[j..close + |m|] == t; }
    forall k | 0 <= k < close - j ensures !At(t, k, m) {
      assert !At(s, j + k, m);
      SameSlice(s, j, t, k, k + |m|);
    }
  }

  lemma TagOf(s: string, i: nat)
    requires i < |s| && s[i] == '$' && TagEnd(s, i).Some?
    ensures var j := TagEnd(s, i).value; TagValid(s[i + 1..j - 1]) && s[i..j] == Mark(s[i + 1..j - 1])
  {
  }

  lemma OtherOf(s: string, i: nat)
    requires i < |s| && Lex(s, i).Tok? && Lex(s, i).kind == Plain
    ensures Lex(s, i).end == i + 1 && Fitting(s[..i], Other(s[i]), s[i + 1..])
  {
    assert Lex(s, i) == Tok(Plain, i, i + 1);
    var rest := s[i + 1..];
    assert rest != "" ==> rest[0] == s[i + 1];
    assert s[..i] < s;
    FreeIffNoIdent(s[..i], s);
    if s[i] == '$' && !EndsIdent(s[..i]) {
      assert TagEnd(s, i).None?;
      hide TagEnd, Lex;
      forall tag: string | TagValid(tag) ensures !(tag + "$" <= rest) {
        if tag + "$" <= rest {
          var u := rest[|tag| + 1..];
          assert rest == tag + "$" + u && s[i..] == "$" + rest;
          assert s[i..] == Mark(tag) + u;
          TagEndIs(s, i, tag, u);
          assert false;
        }
      }
    }
  }

  lemma QuotedOf(s: string, i: nat) returns (x: Thing)
    requires i < |s| && Lex(s, i).Tok? && Lex(s, i).kind == Quoted
    ensures var e := Lex(s, i).end; s[i..e] == Print(x) && KindOf(x) == Quoted && Fitting(s[..i], x, s[e..])
  {
    hide Lex, QuoteEnd, Escapes, PrintItems, ItemsValid, EndsE;
    var q, escapes, e := s[i], Escapes(s, i), Lex(s, i).end;
    QuotedIs(s, i);
    var items := ItemsOf(s, i + 1, q, escapes);
    x := if q == '"' then Name(items) else if escapes then EStr(items) else Str(items);
    assert s[..i] < s;
    EscapesIffE(s[..i], s);
    assert s[i..e] == [q] + s[i + 1..e];
    QuotedPrints(items, q, escapes);
  }

  lemma QuotedIs(s: string, i: nat)
    requires i < |s| && Lex(s, i).Tok? && Lex(s, i).kind == Quoted
    ensures (s[i] == '\'' || s[i] == '"') && QuoteEnd(s, i + 1, s[i], Escapes(s, i)) == Some(Lex(s, i).end)
  {
    hide QuoteEnd, Escapes;
  }

  lemma QuotedPrints(items: seq<Item>, q: char, escapes: bool)
    requires q == '\'' || q == '"'
    ensures Print(if q == '"' then Name(items) else if escapes then EStr(items) else Str(items)) == [q] + (PrintItems(items, q) + [q])
  {
    hide PrintItems;
  }

  lemma RemarkOf(s: string, i: nat) returns (x: Thing)
    requires i < |s| && Lex(s, i).Tok? && Lex(s, i).kind == LineComment
    ensures var e := Lex(s, i).end; s[i..e] == Print(x) && x.Remark? && Fitting(s[..i], x, s[e..])
  {
    var e := Lex(s, i).end;
    assert LineEnd(s, i) == e && s[i] == '-' && s[i + 1] == '-' && e >= i + 2;
    hide Lex, LineEnd;
    x := Remark(s[i + 2..e]);
    assert s[i..e] == "--" + s[i + 2..e];
  }

  lemma ParamOf(s: string, i: nat) returns (x: Thing)
    requires i < |s| && Lex(s, i).Tok? && Lex(s, i).kind == Parameter
    ensures var e := Lex(s, i).end; s[i..e] == Print(x) && x.Param? && Fitting(s[..i], x, s[e..])
  {
    var e := Lex(s, i).end;
    assert DigitsEnd(s, i + 1) == e && FreeDollar(s, i) && IsDigit(s[i + 1]);
    hide Lex, DigitsEnd, EndsIdent;
    assert s[..i] < s;
    FreeIffNoIdent(s[..i], s);
    x := Param(s[i + 1..e]);
    assert s[i..e] == "$" + s[i + 1..e];
  }

  lemma EndOf(s: string, i: nat)
    requires i < |s| && Lex(s, i).Tok? && Lex(s, i).kind == Semicolon
    ensures Lex(s, i).end == i + 1 && s[i..i + 1] == Print(End)
  {
    assert s[i] == ';';
  }

  lemma CommentOf(s: string, i: nat) returns (x: Thing)
    requires i < |s| && Lex(s, i).Tok? && Lex(s, i).kind == BlockComment
    ensures var e := Lex(s, i).end; s[i..e] == Print(x) && x.Comment? && Fitting(s[..i], x, s[e..])
  {
    var e := Lex(s, i).end;
    assert Pair(s, i, '/', '*') && BlockEnd(s, i + 2) == Some(e);
    hide Lex, BlockEnd, PrintParts, PartsValid;
    var parts := PartsOf(s, i + 2);
    x := Comment(parts);
    assert s[i..e] == s[i..i + 2] + s[i + 2..e] && s[i..i + 2] == "/*";
  }

  /** What a token that ends was written from. */
  lemma ThingOf(s: string, i: nat) returns (x: Thing)
    requires i < |s| && Lex(s, i).Tok?
    ensures var t := Lex(s, i); s[i..t.end] == Print(x) && KindOf(x) == t.kind && Fitting(s[..i], x, s[t.end..])
  {
    hide Lex, Print, Fitting;
    match Lex(s, i).kind
    case LineComment => x := RemarkOf(s, i);
    case BlockComment => x := CommentOf(s, i);
    case Quoted => x := QuotedOf(s, i);
    case Parameter => x := ParamOf(s, i);
    case DollarBody => x := DollarOf(s, i);
    case Semicolon =>
      x := End;
      EndOf(s, i);
      assert Fitting(s[..i], End, s[i + 1..]) by { EndFits(s[..i], s[i + 1..]); }
    case Plain =>
      x := Other(s[i]);
      OtherOf(s, i);
      assert s[i..i + 1] == [s[i]] == Print(x) by { PrintOther(s[i]); }
  }

  lemma EndFits(pre: string, rest: string)
    ensures Fitting(pre, End, rest)
  {
  }

  lemma PrintOther(c: char)
    ensures Print(Other(c)) == [c]
  {
  }

  lemma {:induction false} WrittenOf(s: string, i: nat) returns (xs: seq<Thing>)
    requires i <= |s| && AllEnd(Tokens(s, i))
    ensures Written(s[..i], xs) && PrintAll(xs) == s[i..]
    decreases |s| - i
  {
    hide Lex, Print, Fitting;
    if i == |s| {
      xs := [];
    } else {
      var ts := Tokens(s, i);
      assert ts[0] == Lex(s, i);
      TokensStep(s, i);
      var e := Lex(s, i).end;
      assert ts[1..] == Tokens(s, e);
      var x := ThingOf(s, i);
      var rest := WrittenOf(s, e);
      xs := [x] + rest;
      assert xs[1..] == rest && s[..i] + s[i..e] == s[..e] && s[i..e] + s[e..] == s[i..];
    }
  }

  /** Every construct of a text ends if and only if the text can be written. */
  lemma EndsIffWritten(s: string)
    ensures AllEnd(Tokens(s, 0)) <==> exists xs :: Written("", xs) && PrintAll(xs) == s
  {
    hide Written, PrintAll, Tokens;
    if AllEnd(Tokens(s, 0)) {
      var xs := WrittenOf(s, 0);
      assert s[..0] == "" && s[0..] == s;
      assert Written("", xs) && PrintAll(xs) == s;
    }
    forall xs | Written("", xs) && PrintAll(xs) == s ensures AllEnd(Tokens(s, 0)) {
      WriteReads(xs);
      AllTokensEnd(xs, 0);
    }
  }

  lemma {:induction false} AllTokensEnd(xs: seq<Thing>, i: nat)
    ensures AllEnd(TokensAt(xs, i))
    decreases |xs|
  {
    hide Print, KindOf;
    if xs != [] { AllTokensEnd(xs[1..], i + |Print(xs[0])|); }
  }

  // ---- One statement, as written ----

  /** A blank, a comment or a semicolon. */
  predicate Idle(x: Thing) {
    x.End? || x.Comment? || x.Remark? || (x.Other? && IsByteSpace(x.c))
  }

  /** After a semicolon comes nothing else. */
  predicate OneEnd(xs: seq<Thing>) {
    forall j, k :: 0 <= j < k < |xs| && xs[j].End? ==> Idle(xs[k])
  }

  function BeforeEnd(xs: seq<Thing>): seq<Thing> {
    if xs == [] || xs[0].End? then [] else [xs[0]] + BeforeEnd(xs[1..])
  }

  predicate HasEnd(xs: seq<Thing>) {
    exists k :: 0 <= k < |xs| && xs[k].End?
  }

  function NumberOf(x: Thing): nat {
    if x.Param? && AllDigits(x.digits) && Decimal(x.digits) <= MAX_INT then Decimal(x.digits) else 0
  }

  /** `m` is the largest parameter that fits an int. */
  ghost predicate IsLargest(xs: seq<Thing>, m: nat) {
    && (forall k :: 0 <= k < |xs| ==> NumberOf(xs[k]) <= m)
    && (m == 0 || exists k :: 0 <= k < |xs| && NumberOf(xs[k]) == m)
  }

  /** The k-th token stands where the k-th thing was printed. */
  lemma {:induction false} TokenOf(xs: seq<Thing>, pre: string, k: nat)
    requires k < |xs|
    ensures |TokensAt(xs, |pre|)| == |xs|
    ensures
      var s, t := pre + PrintAll(xs), TokensAt(xs, |pre|)[k];
      && t.Tok? && t.kind == KindOf(xs[k]) && |pre| <= t.start < t.end <= |s| && s[t.start..t.end] == Print(xs[k])
    decreases |xs|
  {
    hide Print;
    var x, rest := xs[0], xs[1..];
    var s := pre + PrintAll(xs);
    assert s == pre + Print(x) + PrintAll(rest);
    if k > 0 {
      TokenOf(rest, pre + Print(x), k - 1);
    } else {
      assert s[|pre|..|pre| + |Print(x)|] == Print(x);
      if rest != [] { TokenOf(rest, pre + Print(x), 0); }
    }
  }

  lemma {:induction false} FirstEnd(xs: seq<Thing>, i: nat)
    ensures FirstSemi(TokensAt(xs, i)) == if HasEnd(xs) then Some(i + |PrintAll(BeforeEnd(xs))|) else None
    decreases |xs|
  {
    hide Print, PrintAll, HasEnd, FirstSemi, TokensAt, BeforeEnd;
    if xs == [] {
      NoEnd(i);
    } else {
      var rest := xs[1..];
      FirstEnd(rest, i + |Print(xs[0])|);
      FirstSemiStep(xs, i);
      HasEndFirst(xs);
      BeforeEndStep(xs);
    }
  }

  lemma NoEnd(i: nat)
    ensures !HasEnd([]) && FirstSemi(TokensAt([], i)) == None
  {
  }

  lemma FirstSemiStep(xs: seq<Thing>, i: nat)
    requires xs != []
    ensures FirstSemi(TokensAt(xs, i)) == if xs[0].End? then Some(i) else FirstSemi(TokensAt(xs[1..], i + |Print(xs[0])|))
  {
    hide Print, FirstSemi;
    var t, ts := Tok(KindOf(xs[0]), i, i + |Print(xs[0])|), TokensAt(xs[1..], i + |Print(xs[0])|);
    assert TokensAt(xs, i) == [t] + ts;
    FirstSemiCons(t, ts);
  }

  lemma FirstSemiCons(t: Token, ts: seq<Token>)
    ensures FirstSemi([t] + ts) == if t.kind == Semicolon then Some(t.start) else FirstSemi(ts)
  {
    assert ([t] + ts)[1..] == ts;
  }

  lemma BeforeEndStep(xs: seq<Thing>)
    requires xs != []
    ensures PrintAll(BeforeEnd(xs)) == if xs[0].End? then "" else Print(xs[0]) + PrintAll(BeforeEnd(xs[1..]))
  {
    hide Print;
    if !xs[0].End? { assert BeforeEnd(xs)[1..] == BeforeEnd(xs[1..]); }
  }

  lemma {:induction false} BeforeEndPrefix(xs: seq<Thing>)
    ensures PrintAll(BeforeEnd(xs)) <= PrintAll(xs) && (!HasEnd(xs) ==> BeforeEnd(xs) == xs)
    decreases |xs|
  {
    hide Print, HasEnd;
    if xs != [] {
      BeforeEndPrefix(xs[1..]);
      BeforeEndStep(xs);
      HasEndFirst(xs);
      assert xs == [xs[0]] + xs[1..];
    }
  }

  lemma HasEndFirst(xs: seq<Thing>)
    requires xs != []
    ensures HasEnd(xs) <==> xs[0].End? || HasEnd(xs[1..])
  {
    if xs[0].End? { assert HasEnd(xs); }
    assert forall k :: 0 <= k < |xs| - 1 ==> xs[1..][k] == xs[k + 1];
    if HasEnd(xs) {
      var k :| 0 <= k < |xs| && xs[k].End?;
      if k > 0 { assert xs[1..][k - 1].End?; }
    }
  }

  lemma TrailingIffIdle(s: string, t: Token, x: Thing)
    requires Fits(s, t) && t.Tok? && t.kind == KindOf(x) && s[t.start..t.end] == Print(x)
    ensures Trailing(s, t) <==> Idle(x)
  {
    hide PrintItems, PrintParts;
    assert s[t.start] == s[t.start..t.end][0] == Print(x)[0];
    assert (x.Str? || x.EStr?) ==> Print(x)[0] == '\'';
    assert x.Name? ==> Print(x)[0] == '"';
    assert (x.Dollar? || x.Param?) ==> Print(x)[0] == '$';
  }

  lemma NumberIs(s: string, t: Token, x: Thing)
    requires Fits(s, t) && t.Tok? && t.kind == KindOf(x) && s[t.start..t.end] == Print(x) && (x.Param? ==> AllDigits(x.digits))
    ensures ParamValue(s, t) == NumberOf(x)
  {
    if x.Param? {
      assert s[t.start + 1..t.end] == s[t.start..t.end][1..] == x.digits;
    }
  }

  lemma {:induction false} TokensCount(xs: seq<Thing>, i: nat)
    ensures |TokensAt(xs, i)| == |xs|
    decreases |xs|
  {
    hide Print;
    if xs != [] { TokensCount(xs[1..], i + |Print(xs[0])|); }
  }

  lemma TokensOneEnd(xs: seq<Thing>)
    requires TokensOf(PrintAll(xs), TokensAt(xs, 0))
    ensures OneStatement(PrintAll(xs), TokensAt(xs, 0)) <==> OneEnd(xs)
  {
    hide PrintAll, Print, Idle, TokensAt, Trailing;
    var s, ts := PrintAll(xs), TokensAt(xs, 0);
    assert "" + s == s;
    TokensCount(xs, 0);
    forall k | 0 <= k < |xs| ensures (Trailing(s, ts[k]) <==> Idle(xs[k])) && (ts[k].kind == Semicolon <==> xs[k].End?) {
      TokenOf(xs, "", k);
      TrailingIffIdle(s, ts[k], xs[k]);
    }
  }

  lemma TokensLargest(xs: seq<Thing>, m: nat)
    requires TokensOf(PrintAll(xs), TokensAt(xs, 0)) && Written("", xs)
    ensures IsMaxParam(PrintAll(xs), TokensAt(xs, 0), m) <==> IsLargest(xs, m)
  {
    hide PrintAll, Print, NumberOf, TokensAt, ParamValue, Written;
    var s, ts := PrintAll(xs), TokensAt(xs, 0);
    assert "" + s == s;
    TokensCount(xs, 0);
    forall k | 0 <= k < |xs| ensures ParamValue(s, ts[k]) == NumberOf(xs[k]) {
      TokenOf(xs, "", k);
      DigitsValid("", xs, k);
      NumberIs(s, ts[k], xs[k]);
    }
  }

  lemma {:induction false} DigitsValid(pre: string, xs: seq<Thing>, k: nat)
    requires Written(pre, xs) && k < |xs|
    ensures xs[k].Param? ==> AllDigits(xs[k].digits)
    decreases |xs|
  {
    hide AllDigits;
    if k > 0 { DigitsValid(pre + Print(xs[0]), xs[1..], k - 1); }
  }

  /** readStatement on what was written: it accepts exactly when nothing but blanks, comments and semicolons
      comes after a semicolon and something comes before, and returns that and the largest parameter. */
  lemma ReadsWritten(xs: seq<Thing>, sql: string, leadingWord: string -> string)
    requires Written("", xs) && PrintAll(xs) == TrimSpace(sql)
    ensures
      var r, body := Read(sql, leadingWord), TrimSpace(PrintAll(BeforeEnd(xs)));
      && (r.Good? <==> OneEnd(xs) && body != "")
      && (r.Good? ==> r.value.sql == body && IsLargest(xs, r.value.maxParam))
  {
    hide Written, PrintAll, Tokens, TokensAt, OneStatement, OneEnd, Read, IsMaxParam, IsLargest, TrimSpace, BeforeEnd;
    hide HasEnd, Body, FirstSemi, AllEnd, TokensOf, Trimmed;
    var s := TrimSpace(sql);
    WriteReads(xs);
    AllTokensEnd(xs, 0);
    TokensOneEnd(xs);
    FirstEnd(xs, 0);
    BeforeEndPrefix(xs);
    TrimSpaceTrims(sql);
    TrimmedStays(s);
    BodyIs(xs, s);
    AcceptsExactly(sql, leadingWord);
    if Read(sql, leadingWord).Good? {
      ReturnsStatement(sql, leadingWord);
      TokensLargest(xs, Read(sql, leadingWord).value.maxParam);
    }
  }

  lemma BodyIs(xs: seq<Thing>, s: string)
    requires PrintAll(xs) == s && TrimSpace(s) == s
    ensures Body(s, if HasEnd(xs) then Some(|PrintAll(BeforeEnd(xs))|) else None) == TrimSpace(PrintAll(BeforeEnd(xs)))
  {
    hide PrintAll, HasEnd, BeforeEnd, TrimSpace;
    BeforeEndPrefix(xs);
    var p := PrintAll(BeforeEnd(xs));
    assert s[..|p|] == p;
  }

  /** readStatement accepts exactly what can be written as one statement. */
  lemma AcceptsWritten(sql: string, leadingWord: string -> string)
    ensures Read(sql, leadingWord).Good? <==>
      exists xs :: Written("", xs) && PrintAll(xs) == TrimSpace(sql) && OneEnd(xs) && TrimSpace(PrintAll(BeforeEnd(xs))) != ""
  {
    hide Written, PrintAll, OneEnd, BeforeEnd, TrimSpace, Read, Tokens;
    var s := TrimSpace(sql);
    if Read(sql, leadingWord).Good? {
      AcceptsExactly(sql, leadingWord);
      EndsIffWritten(s);
      var xs :| Written("", xs) && PrintAll(xs) == s;
      ReadsWritten(xs, sql, leadingWord);
    }
    forall xs | Written("", xs) && PrintAll(xs) == s && OneEnd(xs) && TrimSpace(PrintAll(BeforeEnd(xs))) != ""
      ensures Read(sql, leadingWord).Good?
    {
      ReadsWritten(xs, sql, leadingWord);
    }
  }

  // ---- Numbers ----

  function DigitsOf(n: nat): string {
    (if n < 10 then "" else DigitsOf(n / 10)) + [('0' as int + n % 10) as char]
  }

  function Zeros(k: nat): string {
    seq(k, _ => '0')
  }

  lemma {:induction false} DecimalOfDigits(n: nat, k: nat)
    ensures AllDigits(Zeros(k) + DigitsOf(n)) && Decimal(Zeros(k) + DigitsOf(n)) == n
    decreases n
  {
    var ds := Zeros(k) + DigitsOf(n);
    var c := ('0' as int + n % 10) as char;
    if n < 10 {
      assert ds == Zeros(k) + [c];
      DecimalOfZeros(k);
      assert ds[..|ds| - 1] == Zeros(k) && ds[|ds| - 1] == c;
    } else {
      DecimalOfDigits(n / 10, k);
      assert ds == Zeros(k) + DigitsOf(n / 10) + [c];
      assert ds[..|ds| - 1] == Zeros(k) + DigitsOf(n / 10) && ds[|ds| - 1] == c;
    }
  }

  lemma {:induction false} DecimalOfZeros(k: nat)
    ensures forall c :: c in Zeros(k) ==> IsDigit(c)
    ensures Decimal(Zeros(k)) == 0
  {
    if k > 0 {
      DecimalOfZeros(k - 1);
      assert Zeros(k)[..k - 1] == Zeros(k - 1);
    }
  }
}
