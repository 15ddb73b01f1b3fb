/** How the reader moves over texts put together from clean parts. */
module PlanScan {
  import opened ByteText
  import opened PlanText
  import opened PlanExpr

  /** A connective: a word or sign between two blanks. */
  ghost predicate IsSep(sep: string) {
    && |sep| >= 3 && sep[0] == ' ' && sep[|sep| - 1] == ' '
    && forall i :: 0 < i < |sep| - 1 ==> IsWordByte(sep[i])
  }

  predicate IsWordByte(c: char) {
    c != ' ' && !IsQuote(c) && !IsOpen(c, true) && !IsClose(c, true)
  }

  /** One of the connectives the reader looks for, by its first letter. */
  ghost predicate IsConnective(sep: string) {
    IsSep(sep) && (sep[1] == 'A' || sep[1] == 'O' || sep[1] == '=' || sep[1] == '<' || sep[1] == '>')
  }

  lemma SepsAreSeps()
    ensures forall sep :: sep in SEPS ==> IsConnective(sep)
  {
  }

  lemma NoStart(s: string, p: string, i: nat)
    requires i < |p| && (|p| <= |s| ==> s[i] != p[i])
    ensures !StartsWith(s, p)
  {
    if |p| <= |s| { assert s[..|p|][i] == s[i]; }
  }

  lemma NoEnd(s: string, t: string, i: nat)
    requires i < |t| && (|t| <= |s| ==> s[|s| - |t| + i] != t[i])
    ensures !EndsWith(s, t)
  {
    if |t| <= |s| { assert s[|s| - |t|..][i] == s[|s| - |t| + i]; }
  }

  lemma EmptyFree(sep: string)
    ensures TopFree("", sep, 0)
  {
  }

  /** A blank in front, when what follows is no connective's first letter. */
  lemma BlankFree(t: string, sep: string)
    requires IsConnective(sep) && TopFree(t, sep, 0) && t != "" && t[0] != sep[1]
    ensures TopFree(" " + t, sep, 0)
  {
    assert (" " + t)[1..] == t;
    NoStart(" " + t + " ", sep, 1);
  }

  lemma QuoteConcat(t: string, rest: string)
    requires t != "" && QuoteCloses(t)
    ensures QuoteCloses(t + rest) && QuoteLen(t + rest) == QuoteLen(t)
    ensures (t + rest)[QuoteLen(t)..] == t[QuoteLen(t)..] + rest
    ensures (t + rest)[..QuoteLen(t)] == t[..QuoteLen(t)]
  {
    var k := NextQuote(t, t[0], 1);
    assert NextQuote(t + rest, t[0], 1) == k by {
      assert (t + rest)[k] == t[0];
      assert forall j :: 1 <= j < k ==> (t + rest)[j] != t[0];
    }
  }

  // ---- Brackets ----

  lemma {:induction false} BalancedConcat(a: string, d: nat, b: string, square: bool)
    requires Balanced(a, d, square) && Balanced(b, 0, square)
    ensures Balanced(a + b, d, square)
    decreases |a|
  {
    if a == "" {
      assert a + b == b;
    } else if IsQuote(a[0]) {
      QuoteConcat(a, b);
      BalancedConcat(a[QuoteLen(a)..], d, b, square);
    } else {
      assert (a + b)[1..] == a[1..] + b;
      BalancedConcat(a[1..], Deeper(a[0], d, square), b, square);
    }
  }

  /** One more bracket closed after. */
  lemma {:induction false} BalancedClosed(a: string, d: nat, square: bool)
    requires Balanced(a, d, square)
    ensures Balanced(a + ")", d + 1, square)
    decreases |a|
  {
    if a == "" {
      assert a + ")" == ")" && ")"[1..] == "";
    } else if IsQuote(a[0]) {
      QuoteConcat(a, ")");
      BalancedClosed(a[QuoteLen(a)..], d, square);
    } else {
      assert (a + ")")[1..] == a[1..] + ")";
      BalancedClosed(a[1..], Deeper(a[0], d, square), square);
    }
  }

  lemma BalancedParens(t: string, square: bool)
    requires Balanced(t, 0, square)
    ensures Balanced("(" + t + ")", 0, square)
  {
    BalancedClosed(t, 0, square);
    assert ("(" + t + ")")[1..] == t + ")";
  }

  /** A word in front changes nothing. */
  lemma {:induction false} BalancedWord(w: string, t: string, square: bool)
    requires Balanced(t, 0, square) && forall i :: 0 <= i < |w| ==> IsWordByte(w[i]) || w[i] == ' '
    ensures Balanced(w + t, 0, square)
    decreases |w|
  {
    if w == "" {
      assert w + t == t;
    } else {
      assert IsWordByte(w[0]) || w[0] == ' ';
      assert (w + t)[1..] == w[1..] + t;
      BalancedWord(w[1..], t, square);
    }
  }

  // ---- Splitting ----

  /** What follows a text starts with a blank or not at all, so it completes no separator but with one. */
  lemma SepAcross(t: string, rest: string, sep: string)
    requires IsSep(sep) && t != "" && (rest == "" || rest[0] == ' ')
    ensures StartsWith(t + rest, sep) ==> StartsWith(t + " ", sep)
  {
    if StartsWith(t + rest, sep) {
      var n := |sep|;
      assert forall i :: 0 <= i < n ==> (t + rest)[i] == sep[i];
      if |t| < n {
        assert (t + rest)[|t|] == ' ' == sep[|t|];
      }
      assert (t + " ")[..n] == sep;
    }
  }

  /** At the top level, a text without the separator is passed over whole. */
  lemma {:induction false} FreeScan(t: string, e: nat, rest: string, sep: string, cur: string)
    requires IsSep(sep) && Balanced(t, e, true) && TopFree(t, sep, e) && (rest == "" || rest[0] == ' ')
    ensures SplitFrom(t + rest, sep, e, cur) == SplitFrom(rest, sep, 0, cur + t)
    decreases |t|
  {
    if t == "" {
      assert t + rest == rest && cur + t == cur;
    } else if IsQuote(t[0]) {
      var n := QuoteLen(t);
      QuoteConcat(t, rest);
      assert cur + t[..n] + t[n..] == cur + t;
      FreeScan(t[n..], e, rest, sep, cur + t[..n]);
    } else {
      var d := Deeper(t[0], e, true);
      if d == 0 { SepAcross(t, rest, sep); }
      assert (t + rest)[1..] == t[1..] + rest;
      assert cur + [t[0]] + t[1..] == cur + t;
      FreeScan(t[1..], d, rest, sep, cur + [t[0]]);
    }
  }

  lemma SplitsNot(t: string, sep: string)
    requires IsSep(sep) && Balanced(t, 0, true) && TopFree(t, sep, 0)
    ensures SplitTop(t, sep) == [t]
  {
    FreeScan(t, 0, "", sep, "");
    assert t + "" == t && "" + t == t;
  }

  lemma SplitsAt(t: string, sep: string, rest: string)
    requires IsSep(sep) && Balanced(t, 0, true) && TopFree(t, sep, 0)
    ensures SplitTop(t + (sep + rest), sep) == [t] + SplitTop(rest, sep)
  {
    FreeScan(t, 0, sep + rest, sep, "");
    assert "" + t == t;
    var u := sep + rest;
    assert u[..|sep|] == sep && u[|sep|..] == rest;
    assert u[0] == ' ' && StartsWith(u, sep);
    assert SplitFrom(u, sep, 0, t) == [t] + SplitFrom(rest, sep, 0, "");
    assert SplitTop(t + u, sep) == SplitFrom(u, sep, 0, "" + t);
  }

  /** A list joined by a separator none of its texts holds is split back into the list. */
  lemma {:induction false} SplitJoin(ts: seq<string>, sep: string)
    requires ts != [] && IsSep(sep)
    requires forall k :: 0 <= k < |ts| ==> Balanced(ts[k], 0, true) && TopFree(ts[k], sep, 0)
    ensures SplitTop(JoinTexts(ts, sep), sep) == ts
  {
    if |ts| == 1 {
      SplitsNot(ts[0], sep);
    } else {
      SplitJoin(ts[1..], sep);
      SplitsAt(ts[0], sep, JoinTexts(ts[1..], sep));
      assert JoinTexts(ts, sep) == ts[0] + (sep + JoinTexts(ts[1..], sep));
      assert [ts[0]] + ts[1..] == ts;
    }
  }

  // ---- Texts free of a separator ----

  lemma {:induction false} TopFreeConcat(a: string, d: nat, b: string, sep: string)
    requires IsSep(sep) && Balanced(a, d, true) && TopFree(a, sep, d) && TopFree(b, sep, 0)
    requires b != "" && b[0] == ' '
    ensures TopFree(a + b, sep, d)
    decreases |a|
  {
    if a == "" {
      assert a + b == b;
    } else if IsQuote(a[0]) {
      QuoteConcat(a, b);
      TopFreeConcat(a[QuoteLen(a)..], d, b, sep);
    } else {
      var e := Deeper(a[0], d, true);
      assert (a + b)[1..] == a[1..] + b;
      if e == 0 {
        SepAcross(a, b + " ", sep);
        assert a + b + " " == a + (b + " ");
      }
      TopFreeConcat(a[1..], e, b, sep);
    }
  }

  /** No separator starts with anything but a blank. */
  lemma {:induction false} TopFreeWord(w: string, t: string, sep: string)
    requires IsSep(sep) && TopFree(t, sep, 0) && forall i :: 0 <= i < |w| ==> IsWordByte(w[i])
    ensures TopFree(w + t, sep, 0)
    decreases |w|
  {
    if w == "" {
      assert w + t == t;
    } else {
      assert IsWordByte(w[0]);
      assert (w + t)[1..] == w[1..] + t;
      TopFreeWord(w[1..], t, sep);
    }
  }

  /** Inside brackets nothing counts. */
  lemma {:induction false} TopFreeDeep(t: string, e: nat, sep: string, base: nat, rest: string)
    requires IsSep(sep) && Balanced(t, e, true) && base >= 1 && TopFree(rest, sep, base)
    ensures TopFree(t + rest, sep, base + e)
    decreases |t|
  {
    hide TopFree, QuoteLen, IsSep;
    if t == "" {
      assert t + rest == rest;
    } else if IsQuote(t[0]) {
      QuoteConcat(t, rest);
      TopFreeDeep(t[QuoteLen(t)..], e, sep, base, rest);
      TopFreeQuote(t + rest, sep, base + e);
    } else {
      assert (t + rest)[1..] == t[1..] + rest;
      TopFreeDeep(t[1..], Deeper(t[0], e, true), sep, base, rest);
      TopFreeInside(t + rest, sep, base + e);
    }
  }

  lemma TopFreeQuote(s: string, sep: string, depth: nat)
    requires s != "" && IsQuote(s[0]) && TopFree(s[QuoteLen(s)..], sep, depth)
    ensures TopFree(s, sep, depth)
  {
  }

  lemma TopFreeInside(s: string, sep: string, depth: nat)
    requires s != "" && !IsQuote(s[0]) && Deeper(s[0], depth, true) > 0 && TopFree(s[1..], sep, Deeper(s[0], depth, true))
    ensures TopFree(s, sep, depth)
  {
  }

  /** One separator in front of a text free of another. */
  lemma TopFreeSep(sep1: string, t: string, sep: string)
    requires IsSep(sep1) && IsSep(sep) && sep1 != sep && TopFree(" " + t, sep, 0)
    ensures TopFree(sep1 + t, sep, 0)
  {
    var n := |sep1|;
    var word := sep1[1..n - 1];
    assert sep1 + t == [' '] + (word + (" " + t));
    assert forall i :: 0 <= i < |word| ==> word[i] == sep1[i + 1];
    TopFreeWord(word, " " + t, sep);
    assert (sep1 + t)[1..] == word + (" " + t);
    if StartsWith(sep1 + t + " ", sep) {
      SameSep(sep1, sep, t + " ");
    }
  }

  lemma SameSep(sep1: string, sep: string, t: string)
    requires IsSep(sep1) && IsSep(sep) && StartsWith(sep1 + t, sep)
    ensures sep == sep1
  {
    assert forall i :: 0 <= i < |sep| ==> (sep1 + t)[i] == sep[i];
    var n := if |sep| <= |sep1| then |sep| else |sep1|;
    assert (sep1 + t)[n - 1] == sep1[n - 1];
    assert |sep| == |sep1|;
    assert sep == (sep1 + t)[..n] == sep1;
  }

  /** `a` joined to `b`: free of every other separator. */
  lemma TopFreeJoin(a: string, sep1: string, b: string, sep: string)
    requires IsSep(sep1) && IsSep(sep) && sep1 != sep && Balanced(" " + a, 0, true)
    requires TopFree(" " + a, sep, 0) && TopFree(" " + b, sep, 0)
    ensures TopFree(" " + (a + sep1 + b), sep, 0)
  {
    assert (sep1 + b)[0] == ' ';
    hide TopFree, Balanced, IsSep;
    TopFreeSep(sep1, b, sep);
    TopFreeConcat(" " + a, 0, sep1 + b, sep);
    assert " " + (a + sep1 + b) == (" " + a) + (sep1 + b);
  }

  // ---- Parentheses ----

  lemma {:induction false} ClosingBounded(t: string, d: nat, rest: string)
    requires Balanced(t, d, false) && d >= 1
    ensures Closing(t + rest, d).Some? && Closing(t + rest, d).value <= |t|
    decreases |t|
  {
    if IsQuote(t[0]) {
      QuoteConcat(t, rest);
      ClosingBounded(t[QuoteLen(t)..], d, rest);
    } else {
      assert (t + rest)[1..] == t[1..] + rest;
      var e := Deeper(t[0], d, false);
      if e > 0 { ClosingBounded(t[1..], e, rest); }
    }
  }

  /** The parenthesis after a balanced text closes the one before it. */
  lemma {:induction false} ClosingPast(t: string, e: nat, base: nat)
    requires Balanced(t, e, false) && base == 1
    ensures Closing(t + ")", base + e) == Some(|t| + 1)
    decreases |t|
  {
    if t == "" {
      assert t + ")" == ")";
    } else if IsQuote(t[0]) {
      QuoteConcat(t, ")");
      ClosingPast(t[QuoteLen(t)..], e, base);
    } else {
      assert (t + ")")[1..] == t[1..] + ")";
      ClosingPast(t[1..], Deeper(t[0], e, false), base);
    }
  }

  lemma ParensWrap(t: string)
    requires Balanced(t, 0, false)
    ensures Wrapped("(" + t + ")")
  {
    ClosingPast(t, 0, 1);
    assert ("(" + t + ")")[1..] == t + ")";
  }

  /** A balanced text followed by more is not in parentheses as a whole. */
  lemma NotWhole(a: string, u: string)
    requires Balanced(a, 0, false) && a != "" && u != ""
    ensures !Wrapped(a + u)
  {
    if a[0] == '(' {
      ClosingBounded(a[1..], 1, u);
      assert (a + u)[1..] == a[1..] + u;
    }
  }

  lemma {:induction false} UnwrapTrims(s: string)
    requires Trimmed(s)
    ensures Trimmed(UnwrapTrimmed(s))
    decreases |s|
  {
    if Wrapped(s) {
      TrimSpaceTrims(s[1..|s| - 1]);
      UnwrapTrims(TrimSpace(s[1..|s| - 1]));
    }
  }

  /** Unwrapping twice is unwrapping once. */
  lemma UnwrapTwice(s: string)
    ensures Unwrap(Unwrap(s)) == Unwrap(s)
    ensures Trimmed(Unwrap(s))
  {
    TrimSpaceTrims(s);
    UnwrapTrims(TrimSpace(s));
    TrimmedStays(Unwrap(s));
  }

  /** The ends of `s` are no blanks. */
  predicate SolidEnds(s: string) {
    s != "" && !IsSpaceByte(s[0]) && !IsSpaceByte(s[|s| - 1])
  }

  lemma UnwrapSolid(s: string)
    requires SolidEnds(s) && !Wrapped(s)
    ensures Unwrap(s) == s
  {
    SolidIsTrimmed(s);
    TrimmedStays(s);
  }

  lemma UnwrapParens(t: string)
    requires SolidEnds(t) && Balanced(t, 0, false) && !Wrapped(t)
    ensures Unwrap("(" + t + ")") == t
  {
    var s := "(" + t + ")";
    SolidIsTrimmed(s);
    TrimmedStays(s);
    ParensWrap(t);
    assert s[1..|s| - 1] == t;
    SolidIsTrimmed(t);
    TrimmedStays(t);
    assert UnwrapTrimmed(t) == t;
    assert UnwrapTrimmed(s) == UnwrapTrimmed(TrimSpace(t));
  }

  /** In parentheses, a balanced text is clean, with whatever clean end comes after it. */
  lemma ParensClean(t: string, tail: string)
    requires Balanced(t, 0, true) && Balanced(t, 0, false) && Balanced(tail, 0, true) && Balanced(tail, 0, false)
    requires tail == "" || !IsSpaceByte(tail[|tail| - 1])
    requires forall sep :: sep in SEPS ==> TopFree(tail, sep, 0)
    ensures Clean("(" + t + ")" + tail)
  {
    SepsAreSeps();
    hide Balanced, TopFree, SEPS, IsSpaceByte, IsConnective;
    ParensBalanced(t, tail, true);
    ParensBalanced(t, tail, false);
    ParensEnds(t, tail);
    forall sep | sep in SEPS ensures TopFree(" " + ("(" + t + ")" + tail), sep, 0) { ParensFree(t, tail, sep); }
  }

  lemma ParensEnds(t: string, tail: string)
    requires tail == "" || !IsSpaceByte(tail[|tail| - 1])
    ensures
      var s := "(" + t + ")" + tail;
      s != "" && !IsSpaceByte(s[0]) && !IsSpaceByte(s[|s| - 1])
  {
    var s := "(" + t + ")" + tail;
    assert s[0] == '(' && s[|s| - 1] == (if tail == "" then ')' else tail[|tail| - 1]);
  }

  lemma ParensBalanced(t: string, tail: string, square: bool)
    requires Balanced(t, 0, square) && Balanced(tail, 0, square)
    ensures Balanced("(" + t + ")" + tail, 0, square)
  {
    BalancedParens(t, square);
    BalancedConcat("(" + t + ")", 0, tail, square);
  }

  lemma ParensFree(t: string, tail: string, sep: string)
    requires IsConnective(sep) && Balanced(t, 0, true) && TopFree(tail, sep, 0)
    ensures TopFree(" " + ("(" + t + ")" + tail), sep, 0)
  {
    var s, u := "(" + t + ")" + tail, ")" + tail;
    ClosedFree(tail, sep);
    TopFreeDeep(t, 0, sep, 1, u);
    hide TopFree, Balanced;
    assert s[0] == '(' && s[1..] == t + u;
    TopFreeInside(s, sep, 0);
    BlankFree(s, sep);
  }

  lemma ClosedFree(tail: string, sep: string)
    requires IsConnective(sep) && TopFree(tail, sep, 0)
    ensures TopFree(")" + tail, sep, 1)
  {
    var u := ")" + tail;
    assert u[1..] == tail;
    NoStart(u + " ", sep, 0);
  }
}
