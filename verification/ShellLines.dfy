/** Exactly which lines are split back into their commands. */
module ShellLines {
  import opened ByteText
  import opened Shell
  import opened ShellTheorems

  /** How the segment reader stands after a text: None when it reads a separator outside quotes. */
  function Ending(t: string, m: Mode): Option<Mode>
    decreases |t|
  {
    if t == "" then Some(m)
    else
      var c := t[0];
      if m.In? then
        if c == m.quote then Ending(t[1..], Out)
        else if c == '\\' && m.quote == '"' && |t| > 1 then Ending(t[2..], m)
        else Ending(t[1..], m)
      else if c == '\'' || c == '"' then Ending(t[1..], In(c))
      else if c == '|' || IsBreak(c) then None
      else Ending(t[1..], Out)
  }

  /** No command's text holds a separator that is read outside quotes, and all but the last close their
      quotes. */
  predicate Separable(l: Line) {
    match l
    case Last(ws) => Ending(PrintWords(ws), Out).Some?
    case Then(ws, _, _, _, rest) => Ending(PrintWords(ws), Out) == Some(Out) && Separable(rest)
  }

  // ---- Reading one text ----

  lemma {:induction false} EndsAt(t: string, u: string, m: Mode, cur: string)
    requires Ending(t, m).Some? && (t != "" ==> t[|t| - 1] != '\\')
    ensures SegmentsFrom(t + u, m, cur) == SegmentsFrom(u, Ending(t, m).value, cur + t)
    decreases |t|
  {
    if t == "" {
      assert t + u == u && cur + t == cur;
    } else {
      var s, c := t + u, t[0];
      assert s[0] == c && s[1..] == t[1..] + u && cur + [c] + t[1..] == cur + t;
      if m.In? && c != m.quote && c == '\\' && m.quote == '"' {
        assert |t| > 1 && s[2..] == t[2..] + u && s[1] == t[1] && cur + [c, t[1]] + t[2..] == cur + t;
        EndsAt(t[2..], u, m, cur + [c, t[1]]);
      } else {
        EndsAt(t[1..], u, if m.In? then if c == m.quote then Out else m else if c == '\'' || c == '"' then In(c) else Out, cur + [c]);
      }
    }
  }

  /** A separator read outside quotes ends the segment inside the text. */
  lemma {:induction false} CutAt(t: string, u: string, m: Mode, cur: string) returns (i: nat, p: bool, rest: seq<Segment>)
    requires Ending(t, m).None?
    ensures i < |t| && (t[i] == '|' || IsBreak(t[i])) && SegmentsFrom(t + u, m, cur) == Flush(cur + t[..i], p) + rest
    decreases |t|
  {
    hide Flush;
    var s, c := t + u, t[0];
    assert s[0] == c && s[1..] == t[1..] + u;
    if m == Out && (c == '|' || IsBreak(c)) {
      i := 0;
      assert cur + t[..0] == cur;
      p := c == '|' && !(|s| > 1 && s[1] == '|');
      rest := SegmentsFrom(if c == '|' && |s| > 1 && (s[1] == '|' || s[1] == '&') then s[2..] else s[1..], Out, "");
    } else if m.In? && c != m.quote && c == '\\' && m.quote == '"' {
      assert s[2..] == t[2..] + u && s[1] == t[1];
      i, p, rest := CutAt(t[2..], u, m, cur + [c, t[1]]);
      assert cur + [c, t[1]] + t[2..][..i] == cur + t[..i + 2];
      i := i + 2;
    } else {
      i, p, rest := CutAt(t[1..], u, if m.In? then if c == m.quote then Out else m else if c == '\'' || c == '"' then In(c) else Out, cur + [c]);
      assert cur + [c] + t[1..][..i] == cur + t[..i + 1];
      i := i + 1;
    }
  }

  /** The first segment of what is left to read; from inside a quote it has at least the next character. */
  lemma {:induction false} FirstSegment(s: string, m: Mode, cur: string) returns (i: nat, p: bool, rest: seq<Segment>)
    ensures i <= |s| && SegmentsFrom(s, m, cur) == Flush(cur + s[..i], p) + rest && (m.In? && s != "" ==> i > 0)
    decreases |s|
  {
    hide Flush;
    if s == "" {
      assert cur + s[..0] == cur && Flush(cur, false) + [] == Flush(cur, false);
      i, p, rest := 0, false, [];
    } else {
      var c := s[0];
      if m == Out && (c == '|' || IsBreak(c)) {
        assert cur + s[..0] == cur;
        i, p := 0, c == '|' && !(|s| > 1 && s[1] == '|');
        rest := SegmentsFrom(if c == '|' && |s| > 1 && (s[1] == '|' || s[1] == '&') then s[2..] else s[1..], Out, "");
      } else if m.In? && c != m.quote && c == '\\' && m.quote == '"' && |s| > 1 {
        i, p, rest := FirstSegment(s[2..], m, cur + [c, s[1]]);
        assert cur + [c, s[1]] + s[2..][..i] == cur + s[..i + 2];
        i := i + 2;
      } else {
        i, p, rest := FirstSegment(s[1..], if m.In? then if c == m.quote then Out else m else if c == '\'' || c == '"' then In(c) else Out, cur + [c]);
        assert cur + [c] + s[1..][..i] == cur + s[..i + 1];
        i := i + 1;
      }
    }
  }

  /** Blanks and a joint inside a quote stay inside it. */
  lemma {:induction false} GapInside(g: string, v: string, q: char, cur: string)
    requires q == '\'' || q == '"'
    requires forall i :: 0 <= i < |g| ==> g[i] != '\'' && g[i] != '"' && g[i] != '\\'
    ensures SegmentsFrom(g + v, In(q), cur) == SegmentsFrom(v, In(q), cur + g)
    decreases |g|
  {
    if g == "" {
      assert g + v == v && cur + g == cur;
    } else {
      assert (g + v)[0] == g[0] && (g + v)[1..] == g[1..] + v && cur + [g[0]] + g[1..] == cur + g;
      GapInside(g[1..], v, q, cur + [g[0]]);
    }
  }

  lemma {:induction false} EndsInQuote(t: string, m: Mode)
    requires m.In? ==> m.quote == '\'' || m.quote == '"'
    ensures Ending(t, m).Some? && Ending(t, m).value.In? ==> Ending(t, m).value.quote == '\'' || Ending(t, m).value.quote == '"'
    decreases |t|
  {
    if t != "" {
      var c := t[0];
      if |t| > 1 { EndsInQuote(t[2..], m); }
      EndsInQuote(t[1..], if m.In? then if c == m.quote then Out else m else if c == '\'' || c == '"' then In(c) else Out);
    }
  }

  // ---- Trimming ----

  lemma {:induction false} TrimPad(pad: string, x: string)
    requires Blank(pad) && x != "" && !IsSpaceRune(x[0])
    ensures Trim(pad + x) == TrimEnd(x)
  {
    if pad == "" {
      assert pad + x == x;
    } else {
      assert pad[0] == ' ' || pad[0] == '\t';
      assert (pad + x)[1..] == pad[1..] + x;
      TrimPad(pad[1..], x);
    }
  }

  lemma {:induction false} TrimEndKeeps(x: string, k: nat)
    requires k < |x| && !IsSpaceRune(x[k])
    ensures k < |TrimEnd(x)| <= |x|
    decreases |x|
  {
    if IsSpaceRune(x[|x| - 1]) { TrimEndKeeps(x[..|x| - 1], k); }
  }

  // ---- Lines ----

  lemma SolidStart(t: string)
    requires Solid(t)
    ensures t != "" && !IsSpaceRune(t[0]) && t[0] != '|' && !IsBreak(t[0]) && t[|t| - 1] != '\\'
  {
  }

  /** The first segment has this text. */
  predicate StartsWithText(ss: seq<Segment>, t: string) {
    ss != [] && ss[0].text == t
  }

  /** A command cut short by a separator of its own. */
  lemma CutShort(t: string, u: string, pad: string)
    requires Solid(t) && Blank(pad) && Ending(t, Out).None?
    ensures !StartsWithText(SegmentsFrom(t + u, Out, pad), t)
  {
    hide SegmentsFrom, Ending, Solid;
    SolidStart(t);
    var i, p, rest := CutAt(t, u, Out, pad);
    var x := t[..i];
    TrimPad(pad, x);
    TrimEndKeeps(x, 0);
  }

  /** A command that leaves a quote open takes what follows into its segment. */
  lemma Swallows(t: string, g: string, v: string, pad: string)
    requires Solid(t) && Blank(pad) && Ending(t, Out).Some? && Ending(t, Out).value.In?
    requires (forall i :: 0 <= i < |g| ==> g[i] != '\'' && g[i] != '"' && g[i] != '\\') && v != "" && !IsSpaceRune(v[0])
    ensures !StartsWithText(SegmentsFrom(t + (g + v), Out, pad), t)
  {
    hide SegmentsFrom, Ending, Solid, Trim, IsSpaceRune;
    SolidStart(t);
    EndsInQuote(t, Out);
    var m := Ending(t, Out).value;
    EndsAt(t, g + v, Out, pad);
    GapInside(g, v, m.quote, pad + t);
    var i, p, rest := FirstSegment(v, m, pad + t + g);
    LongText(pad, t, g, v[..i]);
  }

  lemma LongText(pad: string, t: string, g: string, w: string)
    requires Blank(pad) && t != "" && !IsSpaceRune(t[0]) && w != "" && !IsSpaceRune(w[0])
    ensures |Trim(pad + t + g + w)| > |t|
  {
    hide IsSpaceRune, Trim, TrimEnd;
    var x := t + g + w;
    assert pad + t + g + w == pad + x;
    assert x[0] == t[0] && x[|t| + |g|] == w[0];
    TrimPad(pad, x);
    TrimEndKeeps(x, |t| + |g|);
  }

  /** A command that closes its quotes is one segment. */
  lemma ReadsOne(t: string, before: string, joint: Joint, tail: string, pad: string)
    requires Solid(t) && Blank(pad) && Blank(before) && Ending(t, Out) == Some(Out)
    requires tail != "" && tail[0] != '|' && tail[0] != '&'
    ensures SegmentsFrom(t + (before + (JointText(joint) + tail)), Out, pad)
         == [Segment(t, PipesOn(joint))] + SegmentsFrom(tail, Out, "")
  {
    hide SegmentsFrom, Ending, JointText;
    SolidStart(t);
    EndsAt(t, before + (JointText(joint) + tail), Out, pad);
    SegmentsOfBare(before, JointText(joint) + tail, pad + t);
    SegmentsOfJoint(joint, tail, pad + t + before);
    TrimPadded(pad, t, before);
  }

  lemma GapPlain(before: string, joint: Joint, after: string)
    requires Blank(before) && Blank(after)
    ensures
      var g := before + JointText(joint) + after;
      forall i :: 0 <= i < |g| ==> g[i] != '\'' && g[i] != '"' && g[i] != '\\'
  {
    var j := JointText(joint);
    assert forall i :: 0 <= i < |j| ==> j[i] != '\'' && j[i] != '"' && j[i] != '\\';
  }

  lemma LastReads(t: string, pad: string)
    requires Solid(t) && Blank(pad)
    ensures SegmentsFrom(t, Out, pad) == [Segment(t, false)] <==> Ending(t, Out).Some?
  {
    assert t + "" == t;
    hide Ending, Solid;
    SolidStart(t);
    if Ending(t, Out).Some? {
      EndsAt(t, "", Out, pad);
      assert pad + t + "" == pad + t;
      TrimPadded(pad, t, "");
    } else {
      CutShort(t, "", pad);
    }
  }

  /** A command that closes its quotes, its joint, and the rest of the line. */
  lemma ReadsOn(t: string, before: string, joint: Joint, after: string, v: string, pad: string)
    requires Solid(t) && Blank(pad) && Blank(before) && Blank(after) && Ending(t, Out) == Some(Out)
    requires v != "" && (IsSafe(v[0]) || v[0] == '\'')
    ensures SegmentsFrom(t + before + JointText(joint) + after + v, Out, pad)
         == [Segment(t, PipesOn(joint))] + SegmentsFrom(v, Out, after)
  {
    hide SegmentsFrom, Ending, JointText, Solid;
    ReadsOne(t, before, joint, after + v, pad);
    assert t + before + JointText(joint) + after + v == t + (before + (JointText(joint) + (after + v)));
    SegmentsOfBare(after, v, "");
    assert "" + after == after;
  }

  lemma NoSpace(c: char)
    requires IsSafe(c) || c == '\''
    ensures !IsSpaceRune(c)
  {
  }

  /** A command that does not. */
  lemma ReadsNot(t: string, before: string, joint: Joint, after: string, v: string, pad: string)
    requires Solid(t) && Blank(pad) && Blank(before) && Blank(after) && Ending(t, Out) != Some(Out)
    requires v != "" && (IsSafe(v[0]) || v[0] == '\'')
    ensures !StartsWithText(SegmentsFrom(t + before + JointText(joint) + after + v, Out, pad), t)
  {
    hide SegmentsFrom, Ending, JointText, Solid, IsSafe, IsSpaceRune, StartsWithText, Blank;
    var g := before + JointText(joint) + after;
    GapPlain(before, joint, after);
    NoSpace(v[0]);
    assert t + before + JointText(joint) + after + v == t + (g + v);
    if Ending(t, Out).None? {
      CutShort(t, g + v, pad);
    } else {
      Swallows(t, g, v, pad);
    }
  }

  lemma SameTail(x: Segment, a: seq<Segment>, b: seq<Segment>)
    ensures [x] + a == [x] + b <==> a == b
  {
    assert ([x] + a)[1..] == a && ([x] + b)[1..] == b;
  }

  lemma {:induction false} SeparableFrom(l: Line, pad: string)
    requires ValidLine(l) && Blank(pad)
    ensures SegmentsFrom(PrintLine(l), Out, pad) == LineSegments(l) <==> Separable(l)
  {
    hide SegmentsFrom, Ending, JointText, PrintWords, Solid, IsSafe;
    var t := PrintWords(l.words);
    PrintedIsSolid(l.words);
    match l
    case Last(ws) => LastReads(t, pad);
    case Then(ws, before, joint, after, rest) =>
      var v := PrintLine(rest);
      PrintLineStart(rest);
      if Ending(t, Out) == Some(Out) {
        SeparableFrom(rest, after);
        ReadsOn(t, before, joint, after, v, pad);
        SameTail(Segment(t, PipesOn(joint)), SegmentsFrom(v, Out, after), LineSegments(rest));
      } else {
        ReadsNot(t, before, joint, after, v, pad);
        assert StartsWithText(LineSegments(l), t);
      }
  }

  /** Every line of quoted commands, single quotes or not, is split back into them if and only if no command's
      text holds a separator that the reader sees outside quotes and all but the last close their quotes. */
  lemma LineRoundTripIff(l: Line)
    requires ValidLine(l)
    ensures Segments(PrintLine(l)) == LineSegments(l) <==> Separable(l)
    ensures Separable(l) ==> LineWords(Segments(PrintLine(l))) == Commands(l)
  {
    SeparableFrom(l, "");
    CommandsOfLine(l);
  }
}
