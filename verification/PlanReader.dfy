/** The condition reader as the code runs it: index loops over the text, proved against its meaning. */
module PlanReader {
  import opened ByteText
  import opened PlanText

  /** The quoted text at `i`, to its closing quote or to the end. */
  method SkipQuote(s: string, i: nat) returns (e: nat)
    requires i < |s|
    ensures i < e <= |s| && QuoteLen(s[i..]) == e - i && s[i..][e - i..] == s[e..]
  {
    var j := i + 1;
    while j < |s| && s[j] != s[i]
      invariant i < j <= |s| && forall k :: i < k < j ==> s[k] != s[i]
    {
      j := j + 1;
    }
    e := if j < |s| then j + 1 else |s|;
    ghost var rest := s[i..];
    assert forall k :: 0 <= k < |rest| ==> rest[k] == s[i + k];
    assert NextQuote(rest, rest[0], 1) == j - i;
  }

  method SplitAtTop(s: string, sep: string) returns (out: seq<string>)
    requires sep != "" && !IsQuote(sep[0])
    ensures out == SplitTop(s, sep)
  {
    hide QuoteLen, StartsWith, At;
    out := [];
    var depth, start, i := 0, 0, 0;
    assert s[0..] == s && s[0..0] == "";
    while i < |s|
      invariant 0 <= start <= i <= |s|
      invariant out + SplitFrom(s[i..], sep, depth, s[start..i]) == SplitTop(s, sep)
    {
      ghost var rest := s[i..];
      if IsQuote(s[i]) {
        var j := SkipQuote(s, i);
        assert s[start..j] == s[start..i] + rest[..j - i];
        i := j;
      } else {
        depth := Deeper(s[i], depth, true);
        AtSlice(s, i, sep);
        if depth == 0 && At(s, i, sep) {
          AtFits(s, i, sep);
          ghost var parts := SplitFrom(s[i + |sep|..], sep, 0, "");
          assert rest[|sep|..] == s[i + |sep|..];
          assert out + ([s[start..i]] + parts) == (out + [s[start..i]]) + parts;
          out := out + [s[start..i]];
          i := i + |sep|;
          start := i;
          assert s[start..i] == "";
        } else {
          assert rest[1..] == s[i + 1..] && s[start..i] + [s[i]] == s[start..i + 1];
          i := i + 1;
        }
      }
    }
    assert s[i..] == "" && s[start..] == s[start..i];
    out := out + [s[start..]];
  }

  lemma AtFits(s: string, i: nat, p: string)
    ensures At(s, i, p) ==> i + |p| <= |s|
  {
  }

  /** closing, from the parenthesis the text starts with: the length up to the one that closes it. */
  method FindClosing(s: string) returns (n: Option<nat>)
    ensures n == Closing(s, 0)
  {
    hide QuoteLen, Closing;
    var depth, i := 0, 0;
    assert s[0..] == s;
    while i < |s|
      invariant 0 <= i <= |s|
      invariant Closing(s, 0) == Longer(Closing(s[i..], depth), i)
    {
      ClosingStep(s, i, depth);
      if IsQuote(s[i]) {
        i := SkipQuote(s, i);
      } else {
        depth := Deeper(s[i], depth, false);
        if s[i] == ')' && depth == 0 {
          return Some(i + 1);
        }
        i := i + 1;
      }
    }
    assert s[i..] == "";
    NothingCloses(depth);
    n := None;
  }

  lemma ClosingStep(s: string, i: nat, depth: int)
    requires i < |s|
    ensures
      var n, d := QuoteLen(s[i..]), Deeper(s[i], depth, false);
      Closing(s[i..], depth) ==
        if IsQuote(s[i]) then Longer(Closing(s[i + n..], depth), n)
        else if s[i] == ')' && d == 0 then Some(1)
        else Longer(Closing(s[i + 1..], d), 1)
  {
    var rest, n := s[i..], QuoteLen(s[i..]);
    hide QuoteLen;
    assert rest[0] == s[i] && rest[1..] == s[i + 1..] && rest[n..] == s[i + n..];
  }

  lemma NothingCloses(depth: int)
    ensures Closing("", depth) == None
  {
  }

  method StripParens(text: string) returns (s: string)
    ensures s == Unwrap(text)
  {
    s := TrimSpace(text);
    while |s| >= 2 && s[0] == '(' && s[|s| - 1] == ')'
      invariant UnwrapTrimmed(s) == Unwrap(text)
      decreases |s|
    {
      var n := FindClosing(s);
      if n != Some(|s|) {
        break;
      }
      s := TrimSpace(s[1..|s| - 1]);
    }
  }

  method ReadIdents(text: string) returns (r: Option<seq<string>>)
    ensures r == IdentsFrom(text, [])
  {
    var s, out := text, [];
    while s != ""
      invariant IdentsFrom(s, out) == IdentsFrom(text, [])
      decreases |s|
    {
      var id: string;
      if s[0] == '"' {
        var i, b := 1, "";
        while i < |s| && !(s[i] == '"' && !(i + 1 < |s| && s[i + 1] == '"'))
          invariant 1 <= i <= |s|
          invariant QuotedIdent(s[i..], b) == OneIdent(s)
          decreases |s| - i
        {
          ghost var rest := s[i..];
          if s[i] == '"' {
            assert rest[2..] == s[i + 2..];
            b, i := b + ['"'], i + 2;
          } else {
            assert rest[1..] == s[i + 1..];
            b, i := b + [s[i]], i + 1;
          }
        }
        if i >= |s| {
          return None;
        }
        assert s[i..][1..] == s[i + 1..];
        id, s := b, s[i + 1..];
      } else {
        var i := 0;
        while i < |s| && IsIdentChar(s[i])
          invariant 0 <= i <= |s| && IdentRun(s, i) == IdentRun(s, 0)
        {
          i := i + 1;
        }
        if i == 0 || IsDigit(s[0]) {
          return None;
        }
        id, s := s[..i], s[i..];
      }
      out := out + [id];
      if s == "" {
        break;
      }
      if s[0] != '.' {
        return None;
      }
      s := s[1..];
    }
    r := Some(out);
  }

  method FindMention(expr: string, alias: string) returns (found: bool)
    ensures found == Mentions(expr, alias)
  {
    var i := 0;
    while i < |expr|
      invariant 0 <= i
      invariant MentionsFrom(expr, i, alias) == Mentions(expr, alias)
      decreases |expr| - i
    {
      if expr[i] == '\'' {
        var j := i + 1;
        while j < |expr| && expr[j] != '\''
          invariant i < j <= |expr| && NextQuote(expr, '\'', j) == NextQuote(expr, '\'', i + 1)
        {
          j := j + 1;
        }
        i := j + 1;
      } else {
        if (i == 0 || !IsIdentByte(expr[i - 1])) && (At(expr, i, alias + ".") || At(expr, i, "\"" + alias + "\".")) {
          return true;
        }
        i := i + 1;
      }
    }
    found := false;
  }

  /** conditions: it calls itself on the branches of a disjunction, each strictly shorter. */
  method ReadConditions(expr: string, alias: string) returns (out: seq<Pred>)
    ensures out == Conditions(expr, alias)
    decreases |expr|
  {
    hide SplitTop, Unwrap, Condition, OneColumn;
    out := [];
    var whole := StripParens(expr);
    var parts := SplitAtTop(whole, " AND ");
    forall k | 0 <= k < |parts| ensures |parts[k]| <= |expr| { PartLength(whole, " AND ", k); }
    var i := 0;
    while i < |parts|
      invariant 0 <= i <= |parts|
      invariant out + OfParts(parts[i..], alias, |expr|) == OfParts(parts, alias, |expr|)
    {
      ghost var before := out;
      var ps := ReadPart(parts[i], alias, |expr|);
      out := out + ps;
      assert parts[i..][1..] == parts[i + 1..] && parts[i..][0] == parts[i];
      assert before + (ps + OfParts(parts[i + 1..], alias, |expr|)) == out + OfParts(parts[i + 1..], alias, |expr|);
      i := i + 1;
    }
    assert OfParts(parts[i..], alias, |expr|) == [];
  }

  method ReadPart(text: string, alias: string, bound: nat) returns (ps: seq<Pred>)
    requires |text| <= bound
    ensures ps == OfPart(text, alias, bound)
    decreases bound, 0
  {
    hide SplitTop, Unwrap, Condition;
    var part := StripParens(text);
    var ors := SplitAtTop(part, " OR ");
    if |ors| > 1 {
      forall k | 0 <= k < |ors| ensures |ors[k]| < bound { PartLength(part, " OR ", k); }
      var col, i := "", 0;
      ghost var want := OneColumn(ors, alias, bound, "");
      while i < |ors|
        invariant 0 <= i <= |ors|
        invariant OneColumn(ors[i..], alias, bound, col) == want
      {
        assert ors[i..][0] == ors[i] && ors[i..][1..] == ors[i + 1..];
        var branch := ReadConditions(ors[i], alias);
        if |branch| != 1 || branch[0].kind != Eq || (col != "" && branch[0].col.col != col) {
          col := "";
          assert want == "";
          break;
        }
        col := branch[0].col.col;
        i := i + 1;
      }
      ps := if col == "" then [] else [Pred(ColRef(alias, col), Eq, None)];
    } else {
      var p := Condition(part, alias);
      ps := if p.Some? then [p.value] else [];
    }
  }
}
