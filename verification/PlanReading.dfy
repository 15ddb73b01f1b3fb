/** conditions reads back from a printed tree exactly the predicates of the tree. */
module PlanReading {
  import opened ByteText
  import opened PlanText
  import opened PlanExpr
  import opened PlanScan
  import opened PlanColumns

  // ---- Two things joined are no column ----

  /** Identifiers, dots and quoted names only. */
  predicate IdText(s: string)
    decreases |s|
  {
    || s == ""
    || (s[0] == '"' && QuoteCloses(s) && IdText(s[QuoteLen(s)..]))
    || (s[0] != '"' && (IsIdentChar(s[0]) || s[0] == '.') && IdText(s[1..]))
  }

  lemma {:induction false} QuotedIdentIsIdText(u: string, pre: string, got: string)
    requires forall i :: 0 <= i < |pre| ==> pre[i] != '"'
    requires QuotedIdent(u, got).Some? && IdText(QuotedIdent(u, got).value.1)
    ensures IdText("\"" + pre + u)
    decreases |u|
  {
    hide IsIdentChar;
    var s, n := "\"" + pre + u, |pre|;
    if u[0] != '"' {
      hide IdText;
      assert s == "\"" + (pre + [u[0]]) + u[1..];
      QuotedIdentIsIdText(u[1..], pre + [u[0]], got + [u[0]]);
    } else {
      assert s[n + 1] == '"' && forall j :: 1 <= j < n + 1 ==> s[j] == pre[j - 1];
      assert NextQuote(s, '"', 1) == n + 1;
      if |u| > 1 && u[1] == '"' {
        assert s[n + 2..] == "\"" + "" + u[2..];
        QuotedIdentIsIdText(u[2..], "", got + ['"']);
      } else {
        assert s[n + 2..] == u[1..];
      }
    }
  }

  lemma {:induction false} RunIsIdText(s: string, e: nat)
    requires e <= |s| && (forall j :: 0 <= j < e ==> IsIdentChar(s[j])) && IdText(s[e..])
    ensures IdText(s)
    decreases |s|
  {
    if e == 0 {
      assert s[0..] == s;
    } else {
      assert IsIdentChar(s[0]) && s[1..][e - 1..] == s[e..];
      RunIsIdText(s[1..], e - 1);
    }
  }

  lemma {:induction false} IdentsAreIdText(s: string, out: seq<string>)
    requires IdentsFrom(s, out).Some?
    ensures IdText(s)
    decreases |s|
  {
    if s != "" {
      var (name, rest) := OneIdent(s).value;
      if rest != "" {
        IdentsAreIdText(rest[1..], out + [name]);
      }
      assert IdText(rest);
      if s[0] == '"' {
        QuotedIdentIsIdText(s[1..], "", "");
        assert "\"" + "" + s[1..] == s;
      } else {
        RunIsIdText(s, IdentRun(s, 0));
      }
    }
  }

  /** A balanced text and a blank are not. */
  lemma {:induction false} BlankIsNoIdText(t: string, d: nat, u: string)
    requires Balanced(t, d, false)
    ensures !IdText(t + (" " + u))
    decreases |t|
  {
    var s := t + (" " + u);
    if t == "" {
      assert s[0] == ' ';
    } else if t[0] == '"' {
      QuoteConcat(t, " " + u);
      BlankIsNoIdText(t[QuoteLen(t)..], d, u);
    } else if IsIdentChar(t[0]) || t[0] == '.' {
      assert s[1..] == t[1..] + (" " + u);
      BlankIsNoIdText(t[1..], d, u);
    }
  }

  /** A capital letter or sign that starts a connective; no cast has one. */
  predicate IsMark(c: char) {
    c == 'A' || c == 'O' || c == '=' || c == '<' || c == '>'
  }

  /** A balanced text, a blank and a connective: trimming and unwrapping leave all three. */
  lemma UnwrapKeepsMark(a: string, u: string) returns (v: string)
    requires Balanced(a, 0, false) && a != "" && !IsSpaceByte(a[0])
    requires u != "" && IsMark(u[0])
    ensures v != "" && v[0] == u[0] && Unwrap(a + (" " + u)) == a + (" " + v) && Trimmed(a + (" " + v))
  {
    var s := a + (" " + u);
    var e := RightEdge(s, 0, |s|);
    assert s[|a| + 1] == u[0];
    assert e > |a| + 1;
    v := u[..e - |a| - 1];
    assert s[0..e] == a + (" " + v);
    TrimSpaceTrims(s);
    NotWhole(a, " " + v);
  }

  lemma NoColumn(a: string, u: string)
    requires Balanced(a, 0, false) && a != "" && !IsSpaceByte(a[0])
    requires u != "" && IsMark(u[0])
    ensures PlainCol(a + (" " + u)).None?
  {
    var s := a + (" " + u);
    var v := UnwrapKeepsMark(a, u);
    var t := a + (" " + v);
    UnwrapOfTrim(s);
    NoColumnCast(a, v, 0);
    assert PlainCol(s) == ReadCol(DropCast(t, 0));
  }

  lemma UnwrapOfTrim(s: string)
    ensures Unwrap(TrimSpace(s)) == Unwrap(s)
  {
    TrimSpaceTrims(s);
    TrimmedStays(TrimSpace(s));
  }

  lemma MarkReadsNot(a: string, v: string)
    requires Balanced(a, 0, false)
    ensures ReadCol(a + (" " + v)).None?
  {
    var t := a + (" " + v);
    BlankIsNoIdText(a, 0, v);
    if IdentsFrom(t, []).Some? { IdentsAreIdText(t, []); }
  }

  /** A cast taken off the end leaves the connective. */
  lemma CastLeavesMark(a: string, v: string, cast: string) returns (v': string)
    requires v != "" && IsMark(v[0]) && EndsWith(a + (" " + v), cast)
    requires forall i :: 0 <= i < |cast| ==> cast[i] == ':' || cast[i] == ' ' || 'a' <= cast[i] <= 'z'
    ensures v' != "" && v'[0] == v[0] && TrimSuffix(a + (" " + v), cast) == a + (" " + v')
  {
    var t := a + (" " + v);
    var n := |t| - |cast|;
    assert t[|a| + 1] == v[0];
    assert forall i :: 0 <= i < |cast| ==> t[n + i] == t[n..][i] == cast[i];
    assert n > |a| + 1;
    v' := v[..n - |a| - 1];
    assert t[..n] == a + (" " + v');
  }

  lemma {:induction false} NoColumnCast(a: string, v: string, k: nat)
    requires k <= |CASTS| && Balanced(a, 0, false) && a != "" && !IsSpaceByte(a[0]) && v != "" && IsMark(v[0])
    ensures ReadCol(DropCast(a + (" " + v), k)).None?
    decreases |CASTS| - k
  {
    hide ReadCol, Unwrap, Balanced, Trimmed, IsSpaceByte, EndsWith, TrimSuffix;
    var t := a + (" " + v);
    if k == |CASTS| {
      MarkReadsNot(a, v);
    } else if EndsWith(t, CASTS[k]) {
      CastBytes(k);
      var v' := CastLeavesMark(a, v, CASTS[k]);
      var v'' := UnwrapKeepsMark(a, v');
      MarkReadsNot(a, v'');
    } else {
      NoColumnCast(a, v, k + 1);
    }
  }

  // ---- Nor a null test ----

  /** A connective whose last letter is in no null test. */
  ghost predicate EndsMark(sep: string) {
    IsConnective(sep) && (sep[|sep| - 2] == 'D' || sep[|sep| - 2] == 'R' || sep[|sep| - 2] == '=' || sep[|sep| - 2] == '<' || sep[|sep| - 2] == '>')
  }

  lemma SepsEndMark()
    ensures forall sep :: sep in SEPS ==> EndsMark(sep)
  {
  }

  /** The bytes of the null tests. */
  predicate IsNullByte(c: char) {
    c == ' ' || c == 'I' || c == 'S' || c == 'N' || c == 'O' || c == 'T' || c == 'U' || c == 'L'
  }

  lemma NoEndAcross(a: string, sep: string, b: string, test: string)
    requires EndsMark(sep) && !EndsWith(" " + b, test)
    requires forall i :: 0 <= i < |test| ==> IsNullByte(test[i])
    ensures !EndsWith(a + sep + b, test)
  {
    var s, n := a + sep + b, |test|;
    if n <= |b| + 1 {
      hide IsNullByte;
      var front := a + sep[..|sep| - 1];
      assert s == front + (" " + b);
      SameEnd(front, " " + b, test);
    } else {
      var i := n - |b| - 2;
      assert n <= |s| ==> s[|s| - n + i] == sep[|sep| - 2];
      assert IsNullByte(test[i]);
      NoEnd(s, test, i);
    }
  }

  lemma SameEnd(a: string, b: string, test: string)
    requires |test| <= |b|
    ensures EndsWith(a + b, test) == EndsWith(b, test)
  {
    assert (a + b)[|a| + |b| - |test|..] == b[|b| - |test|..];
  }

  lemma NoNullAcross(a: string, sep: string, b: string)
    requires EndsMark(sep) && NoNullEnd(b)
    ensures NoNullEnd(a + sep + b)
    ensures !EndsWith(a + sep + b, " IS NULL") && !EndsWith(a + sep + b, " IS NOT NULL")
  {
    assert " " + (a + sep + b) == (" " + a) + sep + b;
    NoEndAcross(" " + a, sep, b, " IS NULL");
    NoEndAcross(" " + a, sep, b, " IS NOT NULL");
    NoEndAcross(a, sep, b, " IS NULL");
    NoEndAcross(a, sep, b, " IS NOT NULL");
  }

  lemma NotFollows(a: string, rest: string)
    requires a != "" && (rest == "" || rest[0] == ' ')
    ensures StartsWith(a + rest, "NOT ") ==> StartsWith(a + " ", "NOT ")
  {
    var p := "NOT ";
    if StartsWith(a + rest, p) {
      assert forall i :: 0 <= i < 4 ==> (a + rest)[i] == p[i];
      if |a| < 4 { assert (a + rest)[|a|] == ' ' == p[|a|]; }
      assert (a + " ")[..4] == p;
    }
  }

  /** No null test, no flag: the comparison operators decide. */
  lemma ConditionCompares(part: string, alias: string)
    requires !EndsWith(part, " IS NULL") && !EndsWith(part, " IS NOT NULL")
    requires !StartsWith(part, "NOT ") && PlainCol(part).None?
    ensures Condition(part, alias) == Comparison(part, alias, 0)
  {
    assert TrimPrefix(part, "NOT ") == part;
    assert NullTest(part, alias, Eq).None?;
  }

  /** Two things joined: condition looks at the comparison operators only. */
  lemma JoinedCondition(a: string, sep: string, b: string, alias: string)
    requires Clean(a) && Standalone(a) && NoNullEnd(b) && EndsMark(sep)
    ensures Condition(a + sep + b, alias) == Comparison(a + sep + b, alias, 0)
  {
    var s, u := a + sep + b, sep[1..] + b;
    NoNullAcross(a, sep, b);
    assert s == a + (" " + u) by { assert sep == " " + sep[1..]; }
    NotFollows(a, " " + u);
    NoColumn(a, u);
    ConditionCompares(s, alias);
  }

  lemma NoOpCompares(part: string, alias: string, k: nat)
    requires k <= |OPS| && forall j :: k <= j < |OPS| ==> SplitTop(part, OPS[j]) == [part]
    ensures Comparison(part, alias, k) == None
    decreases |OPS| - k
  {
    if k < |OPS| { NoOpCompares(part, alias, k + 1); }
  }

  /** The operator at which the text is cut, when the ones before it do not cut it. */
  lemma OpCompares(part: string, alias: string, k: nat, op: nat, l: string, r: string)
    requires k <= op < |OPS| && SplitTop(part, OPS[op]) == [l, r]
    requires forall j :: k <= j < op ==> SplitTop(part, OPS[j]) == [part]
    ensures Comparison(part, alias, k) == Sides(l, r, alias, op == 0)
    decreases op - k
  {
    if k < op { OpCompares(part, alias, k + 1, op, l, r); }
  }

  lemma OpsAreSeps(op: nat)
    requires op < |OPS|
    ensures OPS[op] in SEPS && OPS[op] != " AND " && OPS[op] != " OR "
    ensures forall j :: 0 <= j < |OPS| && j != op ==> OPS[j] != OPS[op]
  {
    assert OPS[op] == SEPS[op + 2];
    assert OPS[op][1] != 'A' && OPS[op][1] != 'O';
  }

  // ---- Comparisons ----

  lemma CleanBlank(t: string)
    requires Clean(t)
    ensures Balanced(" " + t, 0, true)
    ensures forall sep :: sep in SEPS ==> TopFree(t, sep, 0)
  {
    assert (" " + t)[1..] == t;
  }

  /** Two clean texts joined by a connective: nothing else cuts them, and the connective cuts them in two. */
  lemma JoinedSplits(a: string, sep: string, b: string, other: string)
    requires Clean(a) && Clean(b) && sep in SEPS && other in SEPS
    ensures other != sep ==> SplitTop(a + sep + b, other) == [a + sep + b] && TopFree(" " + (a + sep + b), other, 0)
    ensures other == sep ==> SplitTop(a + sep + b, sep) == [a, b]
  {
    SepsAreSeps();
    CleanBlank(a);
    CleanBlank(b);
    var s := a + sep + b;
    if other != sep {
      TopFreeJoin(a, sep, b, other);
      assert (" " + s)[1..] == s;
      JoinedBalanced(a, sep, b, true);
      SplitsNot(s, other);
    } else {
      SplitsAt(a, sep, b);
      SplitsNot(b, sep);
      assert s == a + (sep + b);
    }
  }

  lemma JoinedBalanced(a: string, sep: string, b: string, square: bool)
    requires IsSep(sep) && Balanced(a, 0, square) && Balanced(b, 0, square)
    ensures Balanced(a + sep + b, 0, square)
  {
    BalancedWord(sep, b, square);
    BalancedConcat(a, 0, sep + b, square);
    assert a + sep + b == a + (sep + b);
  }

  lemma CutsAt(a: string, sep: string, b: string, alias: string, op: nat)
    requires op < |OPS| && sep == OPS[op] && sep in SEPS && EndsMark(sep)
    requires Clean(a) && Standalone(a) && Clean(b) && NoNullEnd(b)
    ensures Condition(a + sep + b, alias) == Sides(a, b, alias, op == 0)
  {
    hide Condition, SplitTop, Clean, Standalone, NoNullEnd, Sides, IsConnective;
    var s := a + sep + b;
    JoinedCondition(a, sep, b, alias);
    JoinedSplits(a, sep, b, sep);
    forall j | 0 <= j < op ensures SplitTop(s, OPS[j]) == [s] {
      OtherOp(a, op, b, j);
    }
    OpCompares(s, alias, 0, op, a, b);
  }

  lemma OtherOp(a: string, op: nat, b: string, j: nat)
    requires op < |OPS| && j < |OPS| && j != op && Clean(a) && Clean(b)
    ensures SplitTop(a + OPS[op] + b, OPS[j]) == [a + OPS[op] + b]
  {
    OpsAreSeps(op);
    OpsAreSeps(j);
    JoinedSplits(a, OPS[op], b, OPS[j]);
  }

  lemma CompareReads(op: nat, l: Operand, r: Operand, alias: string)
    requires op < |OPS| && ValidOperand(l) && ValidOperand(r)
    ensures ComparePreds(op, l, r, alias) == AsList(Condition(PrintOperand(l) + OPS[op] + PrintOperand(r), alias))
  {
    hide PrintOperand, PlainCol, Mentions, Condition, Clean, ValidComputed, ValidCol;
    var a, b, sep := PrintOperand(l), PrintOperand(r), OPS[op];
    assert sep in SEPS && EndsMark(sep) by { OpsAreSeps(op); SepsEndMark(); }
    assert Clean(a) && Standalone(a) by { OperandClean(l); }
    assert Clean(b) && Standalone(b) by { OperandClean(r); }
    CutsAt(a, sep, b, alias, op);
    assert PlainCol(a) == ColumnOf(l) by { OperandReads(l); }
    assert PlainCol(b) == ColumnOf(r) by { OperandReads(r); }
  }

  function AsList(p: Option<Pred>): seq<Pred> {
    if p.Some? then [p.value] else []
  }

  // ---- Null tests and flags ----

  function NullText(isNull: bool): string {
    if isNull then " IS NULL" else " IS NOT NULL"
  }

  lemma NullReads(o: Operand, isNull: bool, alias: string)
    requires ValidOperand(o)
    ensures AsList(Condition(PrintOperand(o) + NullText(isNull), alias))
         == OnAlias(ColumnOf(o), alias, if isNull then IsNull else NotNull)
  {
    hide PrintOperand, PlainCol, ValidComputed, ValidCol;
    var a, test := PrintOperand(o), NullText(isNull);
    var s := a + test;
    assert s[|s| - |test|..] == test && s[..|s| - |test|] == a;
    if isNull { NoEnd(s, " IS NOT NULL", 4); }
    OperandReads(o);
  }

  lemma NullTextFree(isNull: bool, sep: string)
    requires IsConnective(sep)
    ensures TopFree(NullText(isNull), sep, 0)
  {
    hide TopFree;
    var a, b, c := "IS", "NOT", "NULL";
    assert c + "" == c;
    EmptyFree(sep);
    TopFreeWord(c, "", sep);
    BlankFree(c, sep);
    if isNull {
      TopFreeWord(a, " " + c, sep);
      BlankFree(a + (" " + c), sep);
      assert " " + (a + (" " + c)) == " IS NULL";
    } else {
      TopFreeWord(b, " " + c, sep);
      BlankFree(b + (" " + c), sep);
      TopFreeWord(a, " " + (b + (" " + c)), sep);
      BlankFree(a + (" " + (b + (" " + c))), sep);
      assert " " + (a + (" " + (b + (" " + c)))) == " IS NOT NULL";
    }
  }

  lemma NullTextBalanced(isNull: bool, square: bool)
    ensures Balanced(NullText(isNull), 0, square)
  {
    BalancedWord(NullText(isNull), "", square);
    assert NullText(isNull) + "" == NullText(isNull);
  }

  lemma FlagReads(c: Col, negated: bool, alias: string)
    requires ValidCol(c)
    ensures
      var part := if negated then "NOT " + PrintCol(c) else PrintCol(c);
      AsList(Condition(part, alias)) == OnAlias(Some(RefOf(c)), alias, Eq)
  {
    hide PrintCol, PlainCol, SplitTop;
    var t := PrintCol(c);
    var part := if negated then "NOT " + t else t;
    ColEnds(c);
    NoEnd(part, " IS NULL", 7);
    NoEnd(part, " IS NOT NULL", 11);
    NoStart(t, "NOT ", 0);
    assert TrimPrefix(part, "NOT ") == t;
    ColumnReads(c);
    if c.qual.name != alias {
      forall j | 0 <= j < |OPS| ensures SplitTop(part, OPS[j]) == [part] {
        OpsAreSeps(j);
        FlagSplitsNot(c, negated, OPS[j]);
      }
      NoOpCompares(part, alias, 0);
    }
  }

  /** A flag is balanced and free of every connective. */
  lemma FlagFree(c: Col, negated: bool, sep: string)
    requires ValidCol(c) && sep in SEPS
    ensures
      var part := if negated then "NOT " + PrintCol(c) else PrintCol(c);
      TopFree(" " + part, sep, 0) && TopFree(part, sep, 0)
  {
    SepsAreSeps();
    hide PrintCol, ValidCol;
    var t := PrintCol(c);
    ColFree(c, sep);
    assert (" " + t)[1..] == t;
    if negated {
      TopFreeWord("NOT", " " + t, sep);
      assert "NOT" + (" " + t) == "NOT " + t;
      BlankFree("NOT " + t, sep);
    }
  }

  lemma FlagBalanced(c: Col, negated: bool, square: bool)
    requires ValidCol(c)
    ensures Balanced(if negated then "NOT " + PrintCol(c) else PrintCol(c), 0, square)
  {
    ColBalanced(c, square);
    BalancedWord("NOT ", PrintCol(c), square);
  }

  lemma FlagSplitsNot(c: Col, negated: bool, sep: string)
    requires ValidCol(c) && sep in SEPS
    ensures var part := if negated then "NOT " + PrintCol(c) else PrintCol(c); SplitTop(part, sep) == [part]
  {
    SepsAreSeps();
    FlagFree(c, negated, sep);
    FlagBalanced(c, negated, true);
    SplitsNot(if negated then "NOT " + PrintCol(c) else PrintCol(c), sep);
  }

  // ---- Whole trees ----

  /** What is known of the text inside the parentheses. */
  predicate GoodInner(s: string) {
    SolidEnds(s) && Balanced(s, 0, true) && Balanced(s, 0, false) && !Wrapped(s)
  }

  lemma JoinedInner(a: string, sep: string, b: string)
    requires Clean(a) && sep in SEPS && Balanced(b, 0, true) && Balanced(b, 0, false) && SolidEnds(b)
    ensures GoodInner(a + sep + b)
  {
    hide Clean, Balanced, Wrapped, IsConnective, IsSep, SEPS, SolidEnds;
    SepIsSep(sep);
    CleanFacts(a);
    assert a != "" by { SolidText(a); }
    JoinedBalanced(a, sep, b, true);
    JoinedBalanced(a, sep, b, false);
    NotWhole(a, sep + b);
    assert a + sep + b == a + (sep + b);
    JoinedEnds(a, sep, b);
  }

  lemma SolidText(t: string)
    requires SolidEnds(t)
    ensures t != ""
  {
  }

  lemma JoinedEnds(a: string, sep: string, b: string)
    requires SolidEnds(a) && SolidEnds(b)
    ensures SolidEnds(a + sep + b)
  {
    hide IsSpaceByte;
    var s := a + sep + b;
    assert s[0] == a[0] && s[|s| - 1] == b[|b| - 1];
  }

  /** Several clean texts joined. */
  lemma {:induction false} ListInner(ts: seq<string>, sep: string)
    requires |ts| >= 1 && sep in SEPS && forall k :: 0 <= k < |ts| ==> Clean(ts[k])
    ensures var s := JoinTexts(ts, sep); SolidEnds(s) && Balanced(s, 0, true) && Balanced(s, 0, false)
    ensures |ts| >= 2 ==> GoodInner(JoinTexts(ts, sep))
    decreases |ts|
  {
    hide Clean, Balanced, Wrapped;
    assert SolidEnds(ts[0]) && Balanced(ts[0], 0, true) && Balanced(ts[0], 0, false) by { CleanFacts(ts[0]); }
    if |ts| >= 2 {
      ListInner(ts[1..], sep);
      JoinedInner(ts[0], sep, JoinTexts(ts[1..], sep));
    }
  }

  lemma CleanFacts(t: string)
    requires Clean(t)
    ensures SolidEnds(t) && Balanced(t, 0, true) && Balanced(t, 0, false)
  {
  }

  /** Several clean texts joined are free of every other connective. */
  lemma {:induction false} ListFree(ts: seq<string>, sep: string, other: string)
    requires |ts| >= 1 && sep in SEPS && other in SEPS && other != sep && forall k :: 0 <= k < |ts| ==> Clean(ts[k])
    ensures TopFree(" " + JoinTexts(ts, sep), other, 0)
    decreases |ts|
  {
    hide Clean, TopFree, IsConnective;
    assert TopFree(" " + ts[0], other, 0) && Balanced(" " + ts[0], 0, true) by { CleanFree(ts[0], other); }
    if |ts| >= 2 {
      ListFree(ts[1..], sep, other);
      assert IsSep(sep) && IsSep(other) by { SepIsSep(sep); SepIsSep(other); }
      TopFreeJoin(ts[0], sep, JoinTexts(ts[1..], sep), other);
    }
  }

  lemma SepIsSep(sep: string)
    requires sep in SEPS
    ensures IsConnective(sep) && IsSep(sep) && sep != ""
  {
    SepsAreSeps();
  }

  lemma CleanFree(t: string, sep: string)
    requires Clean(t) && sep in SEPS
    ensures TopFree(" " + t, sep, 0) && TopFree(t, sep, 0) && Balanced(" " + t, 0, true)
  {
    assert (" " + t)[1..] == t;
  }

  lemma ListSplits(ts: seq<string>, sep: string, other: string)
    requires |ts| >= 2 && sep in SEPS && other in SEPS && forall k :: 0 <= k < |ts| ==> Clean(ts[k])
    ensures SplitTop(JoinTexts(ts, sep), other) == if other == sep then ts else [JoinTexts(ts, sep)]
  {
    hide Clean, SplitTop, TopFree, Balanced, IsConnective, JoinTexts;
    SepIsSep(sep);
    SepIsSep(other);
    var s := JoinTexts(ts, sep);
    if other == sep {
      forall k | 0 <= k < |ts| ensures Balanced(ts[k], 0, true) && TopFree(ts[k], sep, 0) {
        CleanFree(ts[k], sep);
        CleanFacts(ts[k]);
      }
      SplitJoin(ts, sep);
    } else {
      ListFree(ts, sep, other);
      ListInner(ts, sep);
      assert TopFree(s, other, 0) by { BlankOff(s, other); }
      SplitsNot(s, other);
    }
  }

  lemma BlankOff(s: string, sep: string)
    requires TopFree(" " + s, sep, 0)
    ensures TopFree(s, sep, 0)
  {
    assert (" " + s)[1..] == s;
  }

  lemma {:induction false} ListNoNullEnd(ts: seq<string>, sep: string)
    requires |ts| >= 1 && sep in SEPS && forall k :: 0 <= k < |ts| ==> NoNullEnd(ts[k])
    ensures NoNullEnd(JoinTexts(ts, sep))
    decreases |ts|
  {
    hide NoNullEnd, EndsMark;
    if |ts| >= 2 {
      ListNoNullEnd(ts[1..], sep);
      assert EndsMark(sep) by { SepsEndMark(); }
      NoNullAcross(ts[0], sep, JoinTexts(ts[1..], sep));
    }
  }

  /** A conjunction as one conjunct of another, or a disjunction as text: no condition of its own. */
  lemma ListCondition(ts: seq<string>, sep: string, alias: string)
    requires |ts| >= 2 && (sep == " AND " || sep == " OR ")
    requires forall k :: 0 <= k < |ts| ==> Clean(ts[k]) && Standalone(ts[k])
    ensures Condition(JoinTexts(ts, sep), alias) == None
  {
    hide Clean, Condition, Comparison, SplitTop, IsConnective;
    assert sep in SEPS by { assert SEPS[0] == " AND " && SEPS[1] == " OR "; }
    var s, b := JoinTexts(ts, sep), JoinTexts(ts[1..], sep);
    ListNoNullEnd(ts[1..], sep);
    SepsEndMark();
    JoinedCondition(ts[0], sep, b, alias);
    forall j | 0 <= j < |OPS| ensures SplitTop(s, OPS[j]) == [s] {
      OpsAreSeps(j);
      ListSplits(ts, sep, OPS[j]);
    }
    NoOpCompares(s, alias, 0);
  }

  /** A printed tree is clean and stands alone; without its parentheses it is balanced and whole. */
  lemma {:induction false} TreeText(e: Expr)
    requires Valid(e)
    ensures Clean(Print(e)) && Standalone(Print(e))
    ensures Trimmed(Inner(e)) && Unwrap(Print(e)) == Inner(e) && Unwrap(Inner(e)) == Inner(e)
    decreases e
  {
    hide Clean, Standalone, Unwrap, Trimmed, Balanced, Wrapped, PrintCol, PrintOperand, ValidOperand, ValidCol, Unreadable;
    match e
    case Opaque(t, _) =>
      UnwrapTwice(t);
    case Flag(c, negated) =>
      FlagInner(c, negated);
      InnerText(Inner(e));
      if !negated {
        ColClean(c);
        ColStandalone(c);
      }
    case And(es) =>
      forall k | 0 <= k < |es| ensures Clean(PrintAll(es)[k]) { TreeText(es[k]); }
      assert " AND " in SEPS by { assert SEPS[0] == " AND "; }
      ListInner(PrintAll(es), " AND ");
      InnerText(Inner(e));
    case Or(es) =>
      forall k | 0 <= k < |es| ensures Clean(PrintAll(es)[k]) { TreeText(es[k]); }
      assert " OR " in SEPS by { assert SEPS[1] == " OR "; }
      ListInner(PrintAll(es), " OR ");
      InnerText(Inner(e));
    case Compare(op, l, r) =>
      CompareInner(op, l, r);
      InnerText(Inner(e));
    case NullCheck(o, isNull) =>
      NullInner(o, isNull);
      InnerText(Inner(e));
  }

  lemma ColStandalone(c: Col)
    requires ValidCol(c)
    ensures Standalone(PrintCol(c))
  {
    ColEnds(c);
    SmallEnds(PrintCol(c));
  }

  /** A good inside: in parentheses it is clean, and unwrapping gives it back. */
  lemma InnerText(s: string)
    requires GoodInner(s)
    ensures Clean("(" + s + ")") && Standalone("(" + s + ")") && Trimmed(s)
    ensures Unwrap("(" + s + ")") == s && Unwrap(s) == s
  {
    hide Unwrap, Wrapped;
    var t := "(" + s + ")";
    assert t + "" == t;
    assert Clean(t + "") by { ParensClean(s, ""); }
    SmallEnds(t);
    UnwrapParens(s);
    UnwrapSolid(s);
    SolidIsTrimmed(s);
  }

  lemma CompareInner(op: nat, l: Operand, r: Operand)
    requires op < |OPS| && ValidOperand(l) && ValidOperand(r)
    ensures GoodInner(PrintOperand(l) + OPS[op] + PrintOperand(r))
  {
    hide Clean, PrintOperand, GoodInner, ValidComputed, ValidCol;
    var a, b := PrintOperand(l), PrintOperand(r);
    assert Clean(a) by { OperandClean(l); }
    assert Clean(b) by { OperandClean(r); }
    CleanFacts(b);
    OpsAreSeps(op);
    JoinedInner(a, OPS[op], b);
  }

  lemma NullInner(o: Operand, isNull: bool)
    requires ValidOperand(o)
    ensures GoodInner(PrintOperand(o) + NullText(isNull))
  {
    hide Clean, PrintOperand, Balanced, Wrapped, ValidComputed, ValidCol;
    var a, test := PrintOperand(o), NullText(isNull);
    assert Clean(a) by { OperandClean(o); }
    CleanFacts(a);
    NullTextBalanced(isNull, true);
    NullTextBalanced(isNull, false);
    BalancedConcat(a, 0, test, true);
    BalancedConcat(a, 0, test, false);
    NotWhole(a, test);
  }

  lemma FlagInner(c: Col, negated: bool)
    requires ValidCol(c)
    ensures GoodInner(if negated then "NOT " + PrintCol(c) else PrintCol(c))
  {
    hide PrintCol, Balanced, ValidCol;
    ColEnds(c);
    FlagBalanced(c, negated, true);
    FlagBalanced(c, negated, false);
  }

  /** At the top level a tree that is no conjunction is not cut at AND, and one that is no disjunction not at OR. */
  lemma InnerSplits(e: Expr, sep: string)
    requires Valid(e) && (sep == " AND " || sep == " OR ")
    requires !(e.And? && sep == " AND ") && !(e.Or? && sep == " OR ")
    ensures SplitTop(Inner(e), sep) == [Inner(e)]
  {
    hide Clean, Standalone, SplitTop, PrintCol, PrintOperand, ValidComputed, ValidCol, Unwrap, Balanced, TopFree;
    assert sep in SEPS by { assert SEPS[0] == " AND " && SEPS[1] == " OR "; }
    match e
    case Opaque(t, _) =>
    case Flag(c, negated) =>
      FlagSplitsNot(c, negated, sep);
    case And(es) =>
      forall k | 0 <= k < |es| ensures Clean(PrintAll(es)[k]) { TreeText(es[k]); }
      ListSplits(PrintAll(es), " AND ", sep);
    case Or(es) =>
      forall k | 0 <= k < |es| ensures Clean(PrintAll(es)[k]) { TreeText(es[k]); }
      ListSplits(PrintAll(es), " OR ", sep);
    case Compare(op, l, r) =>
      OpsAreSeps(op);
      CompareSplitsNot(op, l, r, sep);
    case NullCheck(o, isNull) =>
      NullSplitsNot(o, isNull, sep);
  }

  lemma CompareSplitsNot(op: nat, l: Operand, r: Operand, sep: string)
    requires op < |OPS| && ValidOperand(l) && ValidOperand(r) && sep in SEPS && sep != OPS[op]
    ensures var s := PrintOperand(l) + OPS[op] + PrintOperand(r); SplitTop(s, sep) == [s]
  {
    hide Clean, PrintOperand, SplitTop, ValidComputed, ValidCol;
    assert Clean(PrintOperand(l)) by { OperandClean(l); }
    assert Clean(PrintOperand(r)) by { OperandClean(r); }
    OpsAreSeps(op);
    JoinedSplits(PrintOperand(l), OPS[op], PrintOperand(r), sep);
  }

  lemma NullSplitsNot(o: Operand, isNull: bool, sep: string)
    requires ValidOperand(o) && sep in SEPS
    ensures var s := PrintOperand(o) + NullText(isNull); SplitTop(s, sep) == [s]
  {
    hide Clean, PrintOperand, SplitTop, Balanced, TopFree, IsConnective, ValidComputed, ValidCol;
    var a, test := PrintOperand(o), NullText(isNull);
    assert Clean(a) by { OperandClean(o); }
    CleanFacts(a);
    CleanFree(a, sep);
    SepIsSep(sep);
    NullTextFree(isNull, sep);
    NullTextBalanced(isNull, true);
    BalancedConcat(a, 0, test, true);
    TopFreeConcat(a, 0, test, sep);
    SplitsNot(a + test, sep);
  }

  /** One conjunct, with or without its parentheses. */
  lemma {:induction false} PartReads(e: Expr, text: string, alias: string, bound: nat)
    requires Valid(e) && (text == Print(e) || text == Inner(e)) && |text| <= bound
    ensures OfPart(text, alias, bound) == PartPreds(e, alias)
    decreases e, 1
  {
    hide Clean, Standalone, SplitTop, Condition, Unwrap, PrintCol, PrintOperand, ValidComputed, ValidCol, Unreadable;
    TreeText(e);
    var s := Inner(e);
    match e
    case Or(es) =>
      forall k | 0 <= k < |es| ensures Clean(PrintAll(es)[k]) { TreeText(es[k]); }
      assert " OR " in SEPS by { assert SEPS[1] == " OR "; }
      ListSplits(PrintAll(es), " OR ", " OR ");
      forall k | 0 <= k < |es| ensures |PrintAll(es)[k]| < bound { PartLength(s, " OR ", k); }
      BranchesRead(es, alias, bound, "");
    case And(es) =>
      InnerSplits(e, " OR ");
      forall k | 0 <= k < |es| ensures Clean(PrintAll(es)[k]) && Standalone(PrintAll(es)[k]) { TreeText(es[k]); }
      ListCondition(PrintAll(es), " AND ", alias);
    case Opaque(t, _) =>
      InnerSplits(e, " OR ");
      OpaqueCondition(s, alias);
    case Flag(c, negated) =>
      InnerSplits(e, " OR ");
      FlagReads(c, negated, alias);
    case Compare(op, l, r) =>
      InnerSplits(e, " OR ");
      CompareReads(op, l, r, alias);
    case NullCheck(o, isNull) =>
      InnerSplits(e, " OR ");
      NullReads(o, isNull, alias);
  }

  lemma OpaqueCondition(u: string, alias: string)
    requires Unreadable(u)
    ensures Condition(u, alias) == None
  {
    hide SplitTop, PlainCol;
    forall j | 0 <= j < |OPS| ensures SplitTop(u, OPS[j]) == [u] { OpsAreSeps(j); }
    NoOpCompares(u, alias, 0);
  }

  lemma {:induction false} BranchesRead(es: seq<Expr>, alias: string, bound: nat, col: string)
    requires (forall x :: x in es ==> Valid(x)) && forall k :: 0 <= k < |PrintAll(es)| ==> |PrintAll(es)[k]| < bound
    ensures OneColumn(PrintAll(es), alias, bound, col) == BranchColumn(es, alias, col)
    decreases es, 0
  {
    hide Valid, Print, Conditions, Preds;
    if es != [] {
      var ts := PrintAll(es);
      assert ts[1..] == PrintAll(es[1..]);
      ConditionsRead(es[0], alias);
      var ps := Preds(es[0], alias);
      if !(|ps| != 1 || ps[0].kind != Eq || (col != "" && ps[0].col.col != col)) {
        BranchesRead(es[1..], alias, bound, ps[0].col.col);
      }
    }
  }

  lemma {:induction false} PartsRead(es: seq<Expr>, alias: string, bound: nat)
    requires (forall x :: x in es ==> Valid(x)) && forall k :: 0 <= k < |PrintAll(es)| ==> |PrintAll(es)[k]| <= bound
    ensures OfParts(PrintAll(es), alias, bound) == ConjunctPreds(es, alias)
    decreases es, 0
  {
    hide Valid, Print, OfPart, PartPreds;
    if es != [] {
      assert PrintAll(es)[1..] == PrintAll(es[1..]);
      PartReads(es[0], PrintAll(es)[0], alias, bound);
      PartsRead(es[1..], alias, bound);
    }
  }

  /** conditions reads from a printed tree exactly the predicates of the tree. */
  lemma {:induction false} ConditionsRead(e: Expr, alias: string)
    requires Valid(e)
    ensures Conditions(Print(e), alias) == Preds(e, alias)
    decreases e, 2
  {
    hide Print, OfPart, PartPreds, SplitTop, Unwrap, Clean, Standalone, Trimmed;
    TreeText(e);
    var s, bound := Inner(e), |Print(e)|;
    var parts := SplitTop(s, " AND ");
    forall k | 0 <= k < |parts| ensures |parts[k]| <= bound { PartLength(s, " AND ", k); }
    assert Conditions(Print(e), alias) == OfParts(parts, alias, bound);
    if e.And? {
      forall k | 0 <= k < |e.es| ensures Clean(PrintAll(e.es)[k]) { TreeText(e.es[k]); }
      assert " AND " in SEPS by { assert SEPS[0] == " AND "; }
      ListSplits(PrintAll(e.es), " AND ", " AND ");
      PartsRead(e.es, alias, bound);
    } else {
      InnerSplits(e, " AND ");
      PartReads(e, s, alias, bound);
      assert parts == [s] && parts[1..] == [];
      assert OfParts(parts, alias, bound) == OfPart(s, alias, bound) + OfParts([], alias, bound);
    }
  }
}
