/** Printed columns and operands are clean, and are read back. */
module PlanColumns {
  import opened ByteText
  import opened PlanText
  import opened PlanExpr
  import opened PlanScan

  // ---- Quoted texts ----

  /** A quoted text, followed by more. */
  function QuotedText(v: string, q: char, rest: string): string {
    [q] + Doubled(v, q) + [q] + rest
  }

  lemma NextQuoteTail(v: string, q: char)
    requires v != "" && v[0] != q
    ensures NextQuote(v[1..], q, 0) == NextQuote(v, q, 0) - 1
  {
    var k := NextQuote(v, q, 0);
    assert forall j :: 0 <= j < |v| - 1 ==> v[1..][j] == v[j + 1];
  }

  lemma {:induction false} DoubledFirst(v: string, q: char, k: nat)
    requires k == NextQuote(v, q, 0)
    ensures Doubled(v, q) == if k < |v| then v[..k] + [q, q] + Doubled(v[k + 1..], q) else v
    decreases |v|
  {
    if v != "" && v[0] != q {
      var u := v[1..];
      NextQuoteTail(v, q);
      DoubledFirst(u, q, k - 1);
      assert Doubled(v, q) == [v[0]] + Doubled(u, q);
      hide Doubled, NextQuote;
      if k < |v| {
        assert u[k..] == v[k + 1..] && [v[0]] + u[..k - 1] == v[..k];
      } else {
        assert [v[0]] + u == v;
      }
    } else if v != "" {
      assert k == 0 && v[..0] == "";
    }
  }

  /** The reader sees a quoted text as runs: one up to the first doubled quote, then the rest. */
  lemma QuotedRun(v: string, q: char, rest: string) returns (k: nat)
    ensures k == NextQuote(v, q, 0)
    ensures
      var t := QuotedText(v, q, rest);
      && QuoteCloses(t) && QuoteLen(t) == k + 2
      && t[QuoteLen(t)..] == if k < |v| then QuotedText(v[k + 1..], q, rest) else rest
  {
    hide Doubled;
    k := NextQuote(v, q, 0);
    var t := QuotedText(v, q, rest);
    DoubledFirst(v, q, k);
    if k < |v| {
      assert t == [q] + v[..k] + [q] + QuotedText(v[k + 1..], q, rest);
    } else {
      assert t == [q] + v[..k] + [q] + rest;
    }
    assert t[k + 1] == q && forall j :: 1 <= j < k + 1 ==> t[j] == v[j - 1] != q;
    assert NextQuote(t, q, 1) == k + 1;
  }

  lemma {:induction false} QuotedBalanced(v: string, q: char, rest: string, square: bool)
    requires IsQuote(q) && Balanced(rest, 0, square)
    ensures Balanced(QuotedText(v, q, rest), 0, square)
    decreases |v|
  {
    var k := QuotedRun(v, q, rest);
    if k < |v| { QuotedBalanced(v[k + 1..], q, rest, square); }
  }

  lemma {:induction false} QuotedFree(v: string, q: char, rest: string, sep: string)
    requires IsQuote(q) && TopFree(rest, sep, 0)
    ensures TopFree(QuotedText(v, q, rest), sep, 0)
    decreases |v|
  {
    var k := QuotedRun(v, q, rest);
    if k < |v| { QuotedFree(v[k + 1..], q, rest, sep); }
  }

  // ---- Identifiers ----

  lemma IdentText(i: Ident, rest: string)
    ensures PrintIdent(i) + rest == if i.bare then i.name + rest else QuotedText(i.name, '"', rest)
  {
  }

  lemma IdentBalanced(i: Ident, rest: string, square: bool)
    requires ValidIdent(i) && Balanced(rest, 0, square)
    ensures Balanced(PrintIdent(i) + rest, 0, square)
  {
    IdentText(i, rest);
    if i.bare { BalancedWord(i.name, rest, square); } else { QuotedBalanced(i.name, '"', rest, square); }
  }

  lemma IdentFree(i: Ident, rest: string, sep: string)
    requires ValidIdent(i) && IsSep(sep) && TopFree(rest, sep, 0)
    ensures TopFree(PrintIdent(i) + rest, sep, 0)
  {
    IdentText(i, rest);
    if i.bare { TopFreeWord(i.name, rest, sep); } else { QuotedFree(i.name, '"', rest, sep); }
  }

  /** What a printed name starts and ends with. */
  predicate NameByte(c: char) {
    c == '"' || c == '_' || IsDigit(c) || 'a' <= c <= 'z'
  }

  lemma ColEnds(c: Col)
    requires ValidCol(c)
    ensures var t := PrintCol(c); |t| >= 3 && NameByte(t[0]) && NameByte(t[|t| - 1]) && SolidEnds(t) && !Wrapped(t)
  {
  }

  lemma ColBalanced(c: Col, square: bool)
    requires ValidCol(c)
    ensures Balanced(PrintCol(c), 0, square)
  {
    var last := PrintIdent(c.col);
    assert last + "" == last && PrintCol(c) == PrintIdent(c.qual) + ("." + last);
    IdentBalanced(c.col, "", square);
    BalancedWord(".", last, square);
    IdentBalanced(c.qual, "." + last, square);
  }

  lemma ColFree(c: Col, sep: string)
    requires ValidCol(c) && IsConnective(sep)
    ensures TopFree(" " + PrintCol(c), sep, 0)
  {
    var t, last := PrintCol(c), PrintIdent(c.col);
    assert last + "" == last && t == PrintIdent(c.qual) + ("." + last);
    IdentFree(c.col, "", sep);
    TopFreeWord(".", last, sep);
    IdentFree(c.qual, "." + last, sep);
    ColEnds(c);
    BlankFree(t, sep);
  }

  lemma ColClean(c: Col)
    requires ValidCol(c)
    ensures Clean(PrintCol(c))
  {
    ColBalanced(c, true);
    ColBalanced(c, false);
    ColEnds(c);
    SepsAreSeps();
    forall sep | sep in SEPS ensures TopFree(" " + PrintCol(c), sep, 0) { ColFree(c, sep); }
  }

  lemma {:induction false} QuotedIdentReads(v: string, rest: string, got: string)
    requires rest == "" || rest[0] != '"'
    ensures QuotedIdent(Doubled(v, '"') + "\"" + rest, got) == Some((got + v, rest))
    decreases |v|
  {
    var s := Doubled(v, '"') + "\"" + rest;
    if v == "" {
      assert s == "\"" + rest && s[1..] == rest && got + v == got;
    } else {
      assert got + [v[0]] + v[1..] == got + v;
      var tail := Doubled(v[1..], '"') + "\"" + rest;
      if v[0] == '"' {
        assert s == "\"\"" + tail && s[2..] == tail;
      } else {
        assert s == [v[0]] + tail && s[1..] == tail;
      }
      QuotedIdentReads(v[1..], rest, got + [v[0]]);
    }
  }

  lemma BareReads(name: string, rest: string)
    requires BareName(name) && (rest == "" || rest[0] == '.')
    ensures OneIdent(name + rest) == Some((name, rest))
  {
    var s := name + rest;
    assert forall j :: 0 <= j < |name| ==> s[j] == name[j] && IsIdentChar(s[j]);
    assert rest != "" ==> s[|name|] == '.';
    assert IdentRun(s, 0) == |name|;
    assert s[..|name|] == name && s[|name|..] == rest;
  }

  lemma OneIdentReads(i: Ident, rest: string)
    requires ValidIdent(i) && (rest == "" || rest[0] == '.')
    ensures PrintIdent(i) + rest != "" && OneIdent(PrintIdent(i) + rest) == Some((i.name, rest))
  {
    if i.bare {
      BareReads(i.name, rest);
    } else {
      var s, inside := PrintIdent(i) + rest, Doubled(i.name, '"') + "\"" + rest;
      assert s == "\"" + inside && s[1..] == inside;
      QuotedIdentReads(i.name, rest, "");
      assert "" + i.name == i.name;
    }
  }

  /** colRef undoes the printing of a column, whatever its names hold. */
  lemma ColReads(c: Col)
    requires ValidCol(c)
    ensures ReadCol(PrintCol(c)) == Some(RefOf(c))
  {
    var t, last := PrintCol(c), PrintIdent(c.col);
    assert t == PrintIdent(c.qual) + ("." + last);
    OneIdentReads(c.qual, "." + last);
    assert ("." + last)[1..] == last == last + "";
    OneIdentReads(c.col, "");
    assert IdentsFrom(t, []) == IdentsFrom(last, [] + [c.qual.name]);
    assert IdentsFrom(last, [c.qual.name]) == Some([c.qual.name] + [c.col.name]);
  }

  // ---- Operands ----

  /** Every byte of a cast is ordinary, but for the blank in one of them. */
  lemma CastBytes(k: nat)
    requires k < |CASTS|
    ensures var c := CASTS[k]; |c| >= 6 && c[0] == ':' && (forall i :: 0 <= i < |c| ==> IsWordByte(c[i]) || c[i] == ' ')
    ensures k != 2 ==> forall i :: 0 <= i < |CASTS[k]| ==> IsWordByte(CASTS[k][i])
    ensures forall i :: 0 <= i < |CASTS[k]| ==> CASTS[k][i] == ':' || CASTS[k][i] == ' ' || 'a' <= CASTS[k][i] <= 'z'
    ensures 'a' <= CASTS[k][|CASTS[k]| - 1] <= 'z'
  {
  }

  lemma VaryingFree(sep: string)
    requires IsConnective(sep)
    ensures TopFree("::character varying", sep, 0)
  {
    hide TopFree;
    var a, b := "::character", "varying";
    assert b + "" == b;
    EmptyFree(sep);
    TopFreeWord(b, "", sep);
    BlankFree(b, sep);
    TopFreeWord(a, " " + b, sep);
    assert a + (" " + b) == "::character varying";
  }

  lemma CastFree(k: nat, sep: string)
    requires k < |CASTS| && IsConnective(sep)
    ensures TopFree(CASTS[k], sep, 0)
  {
    CastBytes(k);
    if k == 2 {
      VaryingFree(sep);
    } else {
      TopFreeWord(CASTS[k], "", sep);
      assert CASTS[k] + "" == CASTS[k];
    }
  }

  lemma TailClean(c: Col, tail: string)
    requires ValidCol(c) && tail != "" && !IsSpaceByte(tail[|tail| - 1])
    requires forall i :: 0 <= i < |tail| ==> IsWordByte(tail[i]) || tail[i] == ' '
    requires forall sep :: sep in SEPS ==> TopFree(tail, sep, 0)
    ensures Clean("(" + PrintCol(c) + ")" + tail)
  {
    hide PrintCol, TopFree, Clean, SEPS, IsSpaceByte, ValidCol;
    ColBalanced(c, true);
    ColBalanced(c, false);
    assert tail + "" == tail;
    BalancedWord(tail, "", true);
    BalancedWord(tail, "", false);
    ParensClean(PrintCol(c), tail);
  }

  lemma CastClean(c: Col, k: nat)
    requires ValidCol(c) && k < |CASTS|
    ensures Clean("(" + PrintCol(c) + ")" + CASTS[k])
  {
    var cast := CASTS[k];
    CastBytes(k);
    forall sep | sep in SEPS ensures TopFree(cast, sep, 0) { SepsAreSeps(); CastFree(k, sep); }
    TailClean(c, cast);
  }

  lemma OperandClean(o: Operand)
    requires ValidOperand(o)
    ensures Clean(PrintOperand(o)) && Standalone(PrintOperand(o))
  {
    var t := PrintOperand(o);
    match o
    case Column(c) =>
      ColClean(c);
      ColEnds(c);
      SmallEnds(t);
    case CastColumn(c, k) =>
      CastClean(c, k);
      CastBytes(k);
      SmallEnds(t);
    case Computed(_, _) =>
  }

  /** A text that starts and ends with no capital letter. */
  lemma SmallEnds(t: string)
    requires t != "" && t[0] != 'N' && t[|t| - 1] != 'L'
    ensures Standalone(t)
  {
    NoStart(t + " ", "NOT ", 0);
    NoEnd(" " + t, " IS NULL", 7);
    NoEnd(" " + t, " IS NOT NULL", 11);
  }

  /** A printed column does not end with a cast: a bare name has no colon, and what is before it is a dot. */
  lemma ColNoCast(c: Col, k: nat)
    requires ValidCol(c) && k < |CASTS|
    ensures !EndsWith(PrintCol(c), CASTS[k])
  {
    hide Doubled;
    var t, cast := PrintCol(c), CASTS[k];
    CastBytes(k);
    if !c.col.bare {
      NoEnd(t, cast, |cast| - 1);
    } else {
      var n, p := |t| - |cast|, |PrintIdent(c.qual)|;
      assert t[p] == '.' && forall i :: p < i < |t| ==> t[i] == c.col.name[i - p - 1];
      NoEnd(t, cast, if n <= p then (if n < 0 then 0 else p - n) else 0);
    }
  }

  lemma NoCastDrops(s: string, k: nat)
    requires k <= |CASTS| && forall j :: k <= j < |CASTS| ==> !EndsWith(s, CASTS[j])
    ensures DropCast(s, k) == s
    decreases |CASTS| - k
  {
    if k < |CASTS| { NoCastDrops(s, k + 1); }
  }

  /** No cast ends with an earlier one. */
  lemma CastsDiffer(s: string, j: nat, k: nat)
    requires j < k < |CASTS|
    ensures !EndsWith(s + CASTS[k], CASTS[j])
  {
    var t, n := s + CASTS[k], |CASTS[j]|;
    assert t[|t| - 1] == CASTS[k][|CASTS[k]| - 1] && t[|t| - 5] == CASTS[k][|CASTS[k]| - 5];
    NoEnd(t, CASTS[j], if j == 1 && k == 3 then n - 5 else n - 1);
  }

  lemma CastDrops(s: string, k: nat, j: nat)
    requires j <= k < |CASTS|
    ensures DropCast(s + CASTS[k], j) == Unwrap(s)
    decreases k - j
  {
    if j < k {
      CastsDiffer(s, j, k);
      CastDrops(s, k, j + 1);
    } else {
      var t := s + CASTS[k];
      assert t[|t| - |CASTS[k]|..] == CASTS[k] && t[..|t| - |CASTS[k]|] == s;
    }
  }

  lemma ColumnReads(c: Col)
    requires ValidCol(c)
    ensures PlainCol(PrintCol(c)) == Some(RefOf(c))
  {
    var t := PrintCol(c);
    ColEnds(c);
    ColReads(c);
    SolidIsTrimmed(t);
    TrimmedStays(t);
    UnwrapSolid(t);
    forall k | 0 <= k < |CASTS| ensures !EndsWith(t, CASTS[k]) { ColNoCast(c, k); }
    NoCastDrops(t, 0);
  }

  lemma CastReads(c: Col, k: nat)
    requires ValidCol(c) && k < |CASTS|
    ensures PlainCol("(" + PrintCol(c) + ")" + CASTS[k]) == Some(RefOf(c))
  {
    var t := "(" + PrintCol(c) + ")" + CASTS[k];
    ColEnds(c);
    ColReads(c);
    CastBytes(k);
    assert t[|t| - 1] == CASTS[k][|CASTS[k]| - 1];
    SolidIsTrimmed(t);
    TrimmedStays(t);
    UnwrapSolid(t);
    CastDrops("(" + PrintCol(c) + ")", k, 0);
    ColBalanced(c, false);
    UnwrapParens(PrintCol(c));
  }

  /** plainCol reads an operand as the column it is, if it is one. */
  lemma OperandReads(o: Operand)
    requires ValidOperand(o)
    ensures PlainCol(PrintOperand(o)) == ColumnOf(o)
  {
    match o
    case Column(c) => ColumnReads(c);
    case CastColumn(c, k) => CastReads(c, k);
    case Computed(_, _) =>
  }
}
