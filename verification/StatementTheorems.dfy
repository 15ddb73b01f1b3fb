/** What readStatement promises, stated over the tokens of the text: when it accepts, that reading the
    accepted statement again changes nothing, and when its first keyword is the statement's. */
module StatementTheorems {
  import opened ByteText
  import opened StatementSpec

  // ---- The verdict, without the left-to-right pass ----

  /** Tokens tile the text: the first starts at `i`, each starts where the one before ended, and when
      every one ends the last ends with the text. */
  lemma {:induction false} TokensTile(s: string, i: nat)
    requires i <= |s|
    ensures
      var ts := Tokens(s, i);
      && (ts == [] <==> i == |s|)
      && (ts != [] ==> ts[0].start == i)
      && (forall k :: 0 <= k < |ts| - 1 ==> ts[k].Tok? && ts[k].end == ts[k + 1].start)
      && (ts != [] && ts[|ts| - 1].Tok? ==> ts[|ts| - 1].end == |s|)
    decreases |s| - i
  {
    if i < |s| && Lex(s, i).Tok? {
      var ts, rest := Tokens(s, i), Tokens(s, Lex(s, i).end);
      TokensTile(s, Lex(s, i).end);
      assert forall k :: 1 <= k < |ts| ==> ts[k] == rest[k - 1];
      forall k | 0 <= k < |ts| - 1
        ensures ts[k].Tok? && ts[k].end == ts[k + 1].start
      {
        assert ts[k + 1] == rest[k];
      }
    }
  }

  /** Every construct ends. */
  predicate AllEnd(ts: seq<Token>) {
    forall k :: 0 <= k < |ts| ==> ts[k].Tok?
  }

  /** After a semicolon come only semicolons, blanks and comments. */
  predicate OneStatement(s: string, ts: seq<Token>)
    requires TokensOf(s, ts)
  {
    forall j, k :: 0 <= j < k < |ts| && ts[j].kind == Semicolon ==> Trailing(s, ts[k])
  }

  /** The position of the first top-level semicolon. */
  function FirstSemi(ts: seq<Token>): (r: Option<nat>)
    ensures r.None? <==> forall k :: 0 <= k < |ts| ==> ts[k].kind != Semicolon
    ensures r.Some? ==> exists k :: 0 <= k < |ts| && ts[k].kind == Semicolon && ts[k].start == r.value
                                    && forall j :: 0 <= j < k ==> ts[j].kind != Semicolon
  {
    if ts == [] then None
    else if ts[0].kind == Semicolon then
      assert ts[0].kind == Semicolon; Some(ts[0].start)
    else
      var r := FirstSemi(ts[1..]);
      assert forall k :: 1 <= k < |ts| ==> ts[k] == ts[1..][k - 1];
      r
  }

  /** `m` is the largest parameter number that fits an int (0 when there is none). */
  ghost predicate IsMaxParam(s: string, ts: seq<Token>, m: nat)
    requires TokensOf(s, ts)
  {
    && (forall k :: 0 <= k < |ts| ==> ParamValue(s, ts[k]) <= m)
    && (m == 0 || exists k :: 0 <= k < |ts| && ParamValue(s, ts[k]) == m)
  }

  /** The pass from any intermediate finding: success, semicolon and maximum. */
  lemma {:induction false} PassMeans(s: string, ts: seq<Token>, f: Found)
    requires TokensOf(s, ts)
    ensures
      var r := Pass(s, ts, f);
      r.Good? <==> AllEnd(ts) && OneStatement(s, ts)
                   && (f.semi.Some? ==> forall k :: 0 <= k < |ts| ==> Trailing(s, ts[k]))
    ensures Pass(s, ts, f).Good? ==>
              && Pass(s, ts, f).value.semi == (if f.semi.Some? then f.semi else FirstSemi(ts))
              && var m := Pass(s, ts, f).value.maxParam;
              && m >= f.maxParam
              && (forall k :: 0 <= k < |ts| ==> ParamValue(s, ts[k]) <= m)
              && (m == f.maxParam || exists k :: 0 <= k < |ts| && ParamValue(s, ts[k]) == m)
  {
    if ts != [] {
      var t, rest := ts[0], ts[1..];
      var f' := Found(if t.kind == Semicolon && f.semi.None? then Some(t.start) else f.semi,
                      Max(f.maxParam, ParamValue(s, t)));
      assert forall k :: 0 <= k < |rest| ==> rest[k] == ts[k + 1];
      assert forall k :: 1 <= k < |ts| ==> ts[k] == rest[k - 1];
      PassMeans(s, rest, f');
      if Pass(s, ts, f).Good? {
        PassGoodHolds(s, ts, f, f');
      }
    }
  }

  /** The quantified half of PassMeans, one token further. */
  lemma PassGoodHolds(s: string, ts: seq<Token>, f: Found, f': Found)
    requires TokensOf(s, ts) && ts != []
    requires f' == Found(if ts[0].kind == Semicolon && f.semi.None? then Some(ts[0].start) else f.semi,
                         Max(f.maxParam, ParamValue(s, ts[0])))
    requires Pass(s, ts, f).Good?
    requires OneStatement(s, ts[1..]) && (f'.semi.Some? ==> forall k :: 0 <= k < |ts[1..]| ==> Trailing(s, ts[1..][k]))
    ensures OneStatement(s, ts)
  {
    forall j, k | 0 <= j < k < |ts| && ts[j].kind == Semicolon
      ensures Trailing(s, ts[k])
    {
      assert ts[k] == ts[1..][k - 1];
      if j > 0 { assert ts[j] == ts[1..][j - 1]; }
    }
  }

  /** The text holds exactly one statement: every construct ends, the part before the first top-level
      semicolon is not blank, and after it only semicolons, blanks and comments come. */
  ghost predicate HoldsOne(s: string) {
    var ts := Tokens(s, 0);
    && AllEnd(ts)
    && OneStatement(s, ts)
    && Body(s, FirstSemi(ts)) != ""
  }

  lemma ScanMeans(s: string)
    ensures
      var ts := Tokens(s, 0);
      var p := Scan(s);
      && (p.Good? <==> AllEnd(ts) && OneStatement(s, ts))
      && (p.Good? ==> p.value.semi == FirstSemi(ts) && (p.value.semi.Some? ==> p.value.semi.value < |s|))
  {
    PassMeans(s, Tokens(s, 0), Found(None, 0));
    PassSemi(s, Tokens(s, 0), Found(None, 0));
  }

  /** readStatement accepts exactly the texts that hold one statement. */
  lemma AcceptsExactly(sql: string, leadingWord: string -> string)
    ensures Read(sql, leadingWord).Good? <==> HoldsOne(TrimSpace(sql))
  {
    ScanMeans(TrimSpace(sql));
  }

  /** What it then returns: the part before the first top-level semicolon, and the largest parameter. */
  lemma ReturnsStatement(sql: string, leadingWord: string -> string)
    requires Read(sql, leadingWord).Good?
    ensures
      var s := TrimSpace(sql);
      var ts := Tokens(s, 0);
      && Read(sql, leadingWord).value.sql == Body(s, FirstSemi(ts))
      && IsMaxParam(s, ts, Read(sql, leadingWord).value.maxParam)
  {
    var s := TrimSpace(sql);
    PassMeans(s, Tokens(s, 0), Found(None, 0));
    PassSemi(s, Tokens(s, 0), Found(None, 0));
  }

  // ---- Reading the accepted statement again ----

  lemma {:induction false} BlockEndOfPrefix(s: string, p: string, i: nat)
    requires p <= s && i <= |p|
    requires BlockEnd(s, i).Some? && BlockEnd(s, i).value <= |p|
    ensures BlockEnd(p, i) == BlockEnd(s, i)
    decreases |s| - i
  {
    if Pair(s, i, '*', '/') {
    } else if Pair(s, i, '/', '*') {
      BlockEndOfPrefix(s, p, i + 2);
      BlockEndOfPrefix(s, p, BlockEnd(s, i + 2).value);
    } else {
      BlockEndOfPrefix(s, p, i + 1);
    }
  }

  lemma {:induction false} QuoteEndOfPrefix(s: string, p: string, i: nat, q: char, escapes: bool)
    requires p <= s && i <= |p|
    requires QuoteEnd(s, i, q, escapes).Some? && QuoteEnd(s, i, q, escapes).value <= |p|
    ensures QuoteEnd(p, i, q, escapes) == QuoteEnd(s, i, q, escapes)
    decreases |s| - i
  {
    if escapes && s[i] == '\\' {
      QuoteEndOfPrefix(s, p, i + 2, q, escapes);
    } else if s[i] != q {
      QuoteEndOfPrefix(s, p, i + 1, q, escapes);
    } else if i + 1 < |s| && s[i + 1] == q {
      QuoteEndOfPrefix(s, p, i + 2, q, escapes);
    }
  }

  /** `p` is the text before the semicolon at `e` without the blanks at its end. */
  ghost predicate BlankCut(s: string, p: string, e: nat) {
    p <= s && |p| <= e < |s| && s[e] == ';' && forall j :: |p| <= j < e ==> IsSpaceByte(s[j])
  }

  lemma DigitsOfPrefix(s: string, p: string, e: nat, i: nat)
    requires BlankCut(s, p, e) && i < |s| && IsDigit(s[i]) && i <= |p| && DigitsEnd(s, i) <= e
    ensures i < |p| && DigitsEnd(p, i) == DigitsEnd(s, i) <= |p|
  {
    var d := DigitsEnd(s, i);
    assert IsDigit(s[d - 1]);
    assert i < d <= |p|;
  }

  lemma TagOfPrefix(s: string, p: string, i: nat)
    requires p <= s && i < |p| && s[i] == '$'
    ensures TagEnd(p, i) == if TagEnd(s, i).Some? && TagEnd(s, i).value <= |p| then TagEnd(s, i) else None
  {
    var d, d' := IdentEnd(s, i + 1), IdentEnd(p, i + 1);
    assert d' == if d <= |p| then d else |p|;
  }

  /** A dollar body keeps its end: the end is a dollar, which no blank is. */
  lemma BodyOfPrefix(s: string, p: string, e: nat, mark: string, j: nat)
    requires BlankCut(s, p, e) && j <= |s| && mark != "" && mark[|mark| - 1] == '$'
    requires IndexFrom(s, mark, j).Some? && IndexFrom(s, mark, j).value + |mark| <= e
    ensures IndexFrom(s, mark, j).value + |mark| <= |p| && IndexFrom(p, mark, j) == IndexFrom(s, mark, j)
  {
    hide IndexFrom;
    var k := IndexFrom(s, mark, j).value + |mark| - 1;
    assert s[k] == mark[|mark| - 1] by { assert s[k + 1 - |mark|..k + 1][|mark| - 1] == s[k]; }
    assert k < |p|;
    IndexOfPrefix(s, p, mark, j);
  }

  lemma DollarOfPrefix(s: string, p: string, e: nat, i: nat)
    requires BlankCut(s, p, e) && i < |p| && FreeDollar(s, i)
    requires Lex(s, i).Tok? && Lex(s, i).end <= e
    requires !(i + 1 < |s| && IsDigit(s[i + 1]))
    ensures Lex(p, i) == Lex(s, i) && Lex(s, i).end <= |p|
  {
    TagOfPrefix(s, p, i);
    if TagEnd(s, i).Some? {
      var j := TagEnd(s, i).value;
      BodyOfPrefix(s, p, e, s[i..j], j);
      assert p[i..j] == s[i..j];
    }
  }

  /** Every token before the semicolon survives the cut; only a line comment can reach into the blanks,
      and then it simply ends with the text. */
  lemma LexOfPrefix(s: string, p: string, e: nat, i: nat)
    requires BlankCut(s, p, e) && i < |p|
    requires Lex(s, i).Tok? && Lex(s, i).end <= e
    ensures
      var t := Lex(s, i);
      && (t.end > |p| ==> t.kind == LineComment)
      && Lex(p, i) == Tok(t.kind, i, if t.end <= |p| then t.end else |p|)
  {
    assert Pair(p, i, '-', '-') == Pair(s, i, '-', '-');
    assert Pair(p, i, '/', '*') == Pair(s, i, '/', '*');
    if Pair(s, i, '-', '-') {
      var l := LineEnd(s, i);
      var l' := LineEnd(p, i);
      assert l' == if l <= |p| then l else |p|;
    } else if Pair(s, i, '/', '*') {
      BlockEndOfPrefix(s, p, i + 2);
    } else if s[i] == '\'' || s[i] == '"' {
      assert Escapes(p, i) == Escapes(s, i);
      QuoteEndOfPrefix(s, p, i + 1, s[i], Escapes(s, i));
    } else if FreeDollar(s, i) && i + 1 < |s| && IsDigit(s[i + 1]) {
      DigitsOfPrefix(s, p, e, i + 1);
    } else if FreeDollar(s, i) {
      DollarOfPrefix(s, p, e, i);
    }
  }

  /** After the semicolon nothing changes the findings. */
  lemma {:induction false} TrailingKeeps(s: string, ts: seq<Token>, f: Found)
    requires TokensOf(s, ts) && f.semi.Some? && Pass(s, ts, f).Good?
    ensures Pass(s, ts, f) == Good(f)
  {
    if ts != [] {
      assert Fits(s, ts[0]);
      TrailingKeeps(s, ts[1..], f);
    }
  }

  /** The first semicolon is not before the place the pass starts from. */
  lemma {:induction false} SemiNotBefore(s: string, i: nat, f: Found)
    requires i <= |s| && f.semi.None? && Pass(s, Tokens(s, i), f).Good?
    ensures Pass(s, Tokens(s, i), f).value.semi.Some? ==> Pass(s, Tokens(s, i), f).value.semi.value >= i
    decreases |s| - i
  {
    if i < |s| {
      var t := Lex(s, i);
      assert Tokens(s, i)[1..] == Tokens(s, t.end);
      var f' := Found(if t.kind == Semicolon then Some(i) else None, Max(f.maxParam, ParamValue(s, t)));
      if t.kind == Semicolon {
        TrailingKeeps(s, Tokens(s, t.end), f');
      } else {
        SemiNotBefore(s, t.end, f');
      }
    }
  }

  lemma BlankLex(s: string, p: string, e: nat, i: nat)
    requires BlankCut(s, p, e) && |p| <= i <= e
    ensures Lex(s, i) == Tok(if i == e then Semicolon else Plain, i, i + 1) && ParamValue(s, Lex(s, i)) == 0
  {
    hide BlockEnd, QuoteEnd, DigitsEnd, TagEnd;
    assert s[i] == (if i == e then ';' else s[i]) && !Pair(s, i, '-', '-') && !Pair(s, i, '/', '*');
  }

  /** Between blanks and the semicolon there is no parameter. */
  lemma {:induction false} BlanksKeep(s: string, p: string, e: nat, i: nat, f: Found)
    requires BlankCut(s, p, e) && |p| <= i <= e && f.semi.None?
    requires Pass(s, Tokens(s, i), f).Good? && Pass(s, Tokens(s, i), f).value.semi == Some(e)
    ensures Pass(s, Tokens(s, i), f).value.maxParam == f.maxParam
    decreases e - i
  {
    hide Lex, ParamValue, Pass, Tokens;
    BlankLex(s, p, e, i);
    PassStep(s, i, f);
    if i == e {
      TrailingKeeps(s, Tokens(s, i + 1), Found(Some(e), f.maxParam));
    } else {
      BlanksKeep(s, p, e, i + 1, f);
    }
  }

  /** One step of the pass before the first semicolon. */
  lemma PassStep(s: string, i: nat, f: Found)
    requires i < |s| && f.semi.None?
    ensures
      var t := Lex(s, i);
      Pass(s, Tokens(s, i), f) ==
        if t.Open? then Bad(t.problem)
        else Pass(s, Tokens(s, t.end), Found(if t.kind == Semicolon then Some(i) else None,
                                             Max(f.maxParam, ParamValue(s, t))))
  {
    hide Lex, ParamValue;
    if Lex(s, i).Tok? {
      assert Tokens(s, i)[1..] == Tokens(s, Lex(s, i).end);
    }
  }

  lemma ParamOfPrefix(s: string, p: string, t: Token, u: Token)
    requires p <= s && Fits(s, t) && Fits(p, u) && t.Tok? && u.Tok? && t.kind == u.kind && t.start == u.start
    requires t.kind == Parameter ==> t.end == u.end
    ensures ParamValue(p, u) == ParamValue(s, t)
  {
    if t.kind == Parameter {
      assert p[u.start + 1..u.end] == s[t.start + 1..t.end];
    }
  }

  /** The cut text has the same tokens and parameters, and no semicolon. */
  lemma {:induction false} PassOfPrefix(s: string, p: string, e: nat, i: nat, f: Found)
    requires BlankCut(s, p, e) && i <= |p| && f.semi.None?
    requires Pass(s, Tokens(s, i), f).Good? && Pass(s, Tokens(s, i), f).value.semi == Some(e)
    ensures Pass(p, Tokens(p, i), f) == Good(Found(None, Pass(s, Tokens(s, i), f).value.maxParam))
    decreases |s| - i
  {
    if i == |p| {
      BlanksKeep(s, p, e, i, f);
    } else {
      hide Lex, ParamValue, Pass, Tokens;
      var t := Lex(s, i);
      PassStep(s, i, f);
      if t.kind == Semicolon {
        TrailingKeeps(s, Tokens(s, t.end), Found(Some(i), Max(f.maxParam, ParamValue(s, t))));
        assert false;
      }
      var f' := Found(None, Max(f.maxParam, ParamValue(s, t)));
      SemiNotBefore(s, t.end, f');
      LexOfPrefix(s, p, e, i);
      PassStep(p, i, f);
      ParamOfPrefix(s, p, t, Lex(p, i));
      if t.end <= |p| {
        PassOfPrefix(s, p, e, t.end, f');
      } else {
        EndOfTokens(p, f');
        BlanksKeep(s, p, e, t.end, f');
      }
    }
  }

  lemma EndOfTokens(p: string, f: Found)
    ensures Pass(p, Tokens(p, |p|), f) == Good(f)
  {
  }

  /** The accepted part is trimmed, and scanning it finds the same parameters and no semicolon. */
  lemma ScanOfBody(s: string, f: Found)
    requires Trimmed(s) && Scan(s) == Good(f)
    ensures Trimmed(Body(s, f.semi))
    ensures Scan(Body(s, f.semi)) == Good(Found(None, f.maxParam))
  {
    PassSemi(s, Tokens(s, 0), Found(None, 0));
    if f.semi.Some? {
      var n := TrimOfPrefix(s, f.semi.value);
      PassOfPrefix(s, s[..n], f.semi.value, 0, Found(None, 0));
    }
  }

  lemma ReadTrimmed(s: string, leadingWord: string -> string)
    requires Trimmed(s)
    ensures Read(s, leadingWord) == Conclude(s, Scan(s), leadingWord)
  {
    TrimmedStays(s);
  }

  /** Reading an accepted statement again accepts it, with the same text, parameters and first word. */
  lemma ReadTwice(sql: string, leadingWord: string -> string)
    requires Read(sql, leadingWord).Good?
    ensures Read(Read(sql, leadingWord).value.sql, leadingWord) == Read(sql, leadingWord)
  {
    var s := TrimSpace(sql);
    TrimSpaceTrims(sql);
    var f := Scan(s).value;
    ScanOfBody(s, f);
    ReadTrimmed(Body(s, f.semi), leadingWord);
  }

  // ---- The first keyword ----

  /** What is skipped before a keyword is opening parentheses and white space, to where neither stands. */
  lemma {:induction false} SkipsBlanks(s: string, i: nat) returns (ts: seq<string>)
    requires i <= |s|
    ensures var j := SkipBlanks(s, i); s[i..j] == Concat(ts) && SpaceAt(s, j) == 0 && !(j < |s| && s[j] == '(')
    ensures forall k :: 0 <= k < |ts| ==> ts[k] == "(" || WhiteChar(ts[k])
    decreases |s| - i
  {
    var j := SkipBlanks(s, i);
    var n := if i < |s| && s[i] == '(' then 1 else SpaceAt(s, i);
    if n == 0 {
      ts := [];
    } else {
      var rest := SkipsBlanks(s, i + n);
      var t := s[i..i + n];
      assert t == "(" || WhiteChar(t) by { if s[i] != '(' { SpaceIsWhite(s, i); } }
      ts := [t] + rest;
      assert ts[1..] == rest && s[i..j] == t + s[i + n..j];
    }
  }

  /** Where the statement's first keyword starts, by the tokenizer: past blanks, opening parentheses and
      whole comment tokens. */
  function Lead(s: string, i: nat): (e: nat)
    requires i <= |s|
    ensures i <= e <= |s|
    decreases |s| - i
  {
    var j := SkipBlanks(s, i);
    if Pair(s, j, '-', '-') || Pair(s, j, '/', '*') then
      var t := Lex(s, j);
      if t.Open? then |s| else Lead(s, t.end)
    else j
  }

  /** The block comment at `i` holds no other one and does not begin with its own closing mark. */
  predicate Flat(s: string, i: nat)
    requires i <= |s|
  {
    var close := PairFrom(s, i, '*', '/');
    close.Some? ==> close.value >= i + 2 && forall j :: i + 2 <= j < close.value ==> !Pair(s, j, '/', '*')
  }

  predicate LeadFlat(s: string, i: nat)
    requires i <= |s|
    decreases |s| - i
  {
    var j := SkipBlanks(s, i);
    if Pair(s, j, '-', '-') || Pair(s, j, '/', '*') then
      var t := Lex(s, j);
      && (Pair(s, j, '/', '*') ==> Flat(s, j))
      && (t.Tok? ==> LeadFlat(s, t.end))
    else true
  }

  /** Up to the first closing mark, a comment that holds no other one reads straight through. */
  lemma {:induction false} BlockEndStraight(s: string, i: nat, k: nat)
    requires i <= k && Pair(s, k, '*', '/')
    requires forall j :: i <= j < k ==> !Pair(s, j, '/', '*') && !Pair(s, j, '*', '/')
    ensures BlockEnd(s, i) == Some(k + 2)
    decreases k - i
  {
    if i < k { BlockEndStraight(s, i + 1, k); }
  }

  /** A reading from `i` ends only at or after the first closing mark, and later if another comment opens before it. */
  lemma {:induction false} BlockEndLate(s: string, i: nat, k: nat)
    requires i <= |s| && forall j :: i <= j < k ==> !Pair(s, j, '*', '/')
    ensures BlockEnd(s, i).Some? ==> BlockEnd(s, i).value >= k + 2
    ensures (exists j :: i <= j < k && Pair(s, j, '/', '*')) && BlockEnd(s, i).Some? ==> BlockEnd(s, i).value > k + 2
    decreases |s| - i
  {
    if i < k && BlockEnd(s, i).Some? {
      if Pair(s, i, '/', '*') {
        BlockEndLate(s, i + 2, k);
        BlockEndLate(s, BlockEnd(s, i + 2).value, k);
      } else {
        BlockEndLate(s, i + 1, k);
      }
    }
  }

  /** firstWord and the tokenizer see the same end of a comment exactly when the comment is flat. */
  lemma SameEndIffFlat(s: string, i: nat)
    requires Pair(s, i, '/', '*')
    ensures
      var code := PairFrom(s, i, '*', '/');
      Flat(s, i) <==> BlockEnd(s, i + 2) == (if code.None? then None else Some(code.value + 2))
  {
    var code := PairFrom(s, i, '*', '/');
    if code.None? {
      BlockEndLate(s, i + 2, |s|);
    } else {
      var k := code.value;
      assert k != i;
      if Flat(s, i) {
        BlockEndStraight(s, i + 2, k);
      } else if k >= i + 2 {
        BlockEndLate(s, i + 2, k);
      }
    }
  }

  /** With flat leading comments, FirstWord is read where the tokenizer's first keyword starts. */
  lemma {:induction false} FirstWordAgrees(s: string, i: nat)
    requires i <= |s| && LeadFlat(s, i)
    ensures CodeLead(s, i) == Lead(s, i)
    decreases |s| - i
  {
    hide BlockEnd, QuoteEnd, DigitsEnd, TagEnd, IndexFrom, PairFrom, Flat, SkipBlanks, Escapes, FreeDollar;
    var j := SkipBlanks(s, i);
    if Pair(s, j, '-', '-') {
      var e := LineEnd(s, j);
      FirstWordAgrees(s, e);
      if e < |s| {
        NewlineIsBlank(s, e);
      }
    } else if Pair(s, j, '/', '*') {
      SameEndIffFlat(s, j);
      if Lex(s, j).Tok? { FirstWordAgrees(s, Lex(s, j).end); }
    }
  }

  lemma NewlineIsBlank(s: string, i: nat)
    requires i < |s| && s[i] == '\n'
    ensures CodeLead(s, i) == CodeLead(s, i + 1)
  {
    assert SpaceAt(s, i) == 1;
    assert SkipBlanks(s, i) == SkipBlanks(s, i + 1);
  }

  /** A comment in a comment, then code. */
  const Nested: string := ['/', '*', ' ', '/', '*', '*', '/', ' ', '*', '/', 'S']

  lemma NestedTokens()
    ensures Lex(Nested, 0) == Tok(BlockComment, 0, 10) && Lex(Nested, 10) == Tok(Plain, 10, 11)
  {
    var s := Nested;
    assert Pair(s, 0, '/', '*') && Pair(s, 3, '/', '*') && Pair(s, 5, '*', '/') && Pair(s, 8, '*', '/');
    assert BlockEnd(s, 5) == Some(7);
    assert BlockEnd(s, 8) == Some(10);
    assert BlockEnd(s, 7) == Some(10);
    assert BlockEnd(s, 3) == Some(10);
    assert BlockEnd(s, 2) == Some(10);
  }

  lemma NestedIsRead()
    ensures Read(Nested, x => x).Good?
  {
    var s, f := Nested, Found(None, 0);
    NestedTokens();
    assert TrimSpace(s) == s by { SolidIsTrimmed(s); TrimmedStays(s); }
    hide Lex, TrimSpace;
    PassStep(s, 0, f);
    PassStep(s, 10, f);
    EndOfTokens(s, f);
  }

  lemma NestedLeads()
    ensures Lead(Nested, 0) == 10 && CodeLead(Nested, 0) == 8
  {
    var s := Nested;
    NestedTokens();
    hide Lex, BlockEnd;
    assert Pair(s, 0, '/', '*') && PairFrom(s, 0, '*', '/') == Some(5) by { FirstClose(s, 5); }
    assert SpaceAt(s, 0) == 0 && SpaceAt(s, 10) == 0 && SpaceAt(s, 7) == 1 && SpaceAt(s, 8) == 0;
    assert SkipBlanks(s, 0) == 0 && SkipBlanks(s, 10) == 10 && SkipBlanks(s, 8) == 8;
    assert SkipBlanks(s, 7) == 8;
    assert Lead(s, 10) == 10;
    assert CodeLead(s, 7) == 8;
  }

  lemma FirstClose(s: string, k: nat)
    requires Pair(s, k, '*', '/') && forall j :: 0 <= j < k ==> !Pair(s, j, '*', '/')
    ensures PairFrom(s, 0, '*', '/') == Some(k)
  {
  }

  /** A nested leading comment hides the keyword: the statement is accepted, and what comes after the comment
      is not where the first word is looked for. */
  lemma NestedCommentHidesKeyword()
    ensures Read(Nested, x => x).Good?
    ensures CodeLead(Nested, 0) != Lead(Nested, 0) && Nested[Lead(Nested, 0)..] == "S"
  {
    NestedIsRead();
    NestedLeads();
  }

  /** A comment in a comment whose end is behind a line comment's mark, then code on the next line. */
  const Rejoined: string := ['/', '*', ' ', '/', '*', ' ', '*', '/', ' ', '-', '-', ' ', '*', '/', '\n', 'S']

  lemma RejoinedToken()
    ensures Lex(Rejoined, 0) == Tok(BlockComment, 0, 14)
  {
    var s := Rejoined;
    assert Pair(s, 0, '/', '*') && Pair(s, 3, '/', '*') && Pair(s, 6, '*', '/') && Pair(s, 12, '*', '/');
    assert BlockEnd(s, 6) == Some(8) && BlockEnd(s, 12) == Some(14);
    assert BlockEnd(s, 5) == Some(8) && BlockEnd(s, 11) == Some(14);
    assert BlockEnd(s, 10) == Some(14);
    assert BlockEnd(s, 9) == Some(14);
    assert BlockEnd(s, 8) == Some(14);
    assert BlockEnd(s, 3) == Some(14);
    assert BlockEnd(s, 2) == Some(14);
  }

  lemma RejoinedBlanks()
    ensures SkipBlanks(Rejoined, 0) == 0 && SkipBlanks(Rejoined, 8) == 9 && SkipBlanks(Rejoined, 14) == 15 && SkipBlanks(Rejoined, 15) == 15
  {
    var s := Rejoined;
    assert SpaceAt(s, 0) == 0 && SpaceAt(s, 8) == 1 && SpaceAt(s, 9) == 0 && SpaceAt(s, 14) == 1 && SpaceAt(s, 15) == 0;
    assert SkipBlanks(s, 9) == 9 && SkipBlanks(s, 15) == 15;
  }

  /** Flat comments are sufficient for the two to agree, and not necessary: firstWord closes the outer comment
      too early, and the line comment it then sees ends where the text goes on. */
  lemma FlatNotNecessary()
    ensures !LeadFlat(Rejoined, 0) && CodeLead(Rejoined, 0) == Lead(Rejoined, 0)
  {
    var s := Rejoined;
    RejoinedToken();
    RejoinedBlanks();
    hide Lex, BlockEnd, SkipBlanks;
    assert Pair(s, 0, '/', '*') && !Pair(s, 0, '-', '-');
    FirstClose(s, 6);
    assert Pair(s, 3, '/', '*') && !Flat(s, 0);
    assert !Pair(s, 15, '-', '-') && !Pair(s, 15, '/', '*');
    assert Lead(s, 14) == 15 && Lead(s, 0) == 15;
    assert Pair(s, 9, '-', '-') && LineEnd(s, 9) == 14;
    assert CodeLead(s, 15) == 15;
    assert CodeLead(s, 8) == 15;
  }
}
