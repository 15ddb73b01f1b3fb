/** Printing and reading shell lines undo each other. */
module ShellTheorems {
  import opened Shell

  // ---- Words ----

  lemma {:induction false} WordsOfBare(w: string, rest: string, cur: string, started: bool)
    requires forall i :: 0 <= i < |w| ==> IsSafe(w[i])
    ensures WordsFrom(w + rest, Out, cur, started) == WordsFrom(rest, Out, cur + w, started || w != "")
    decreases |w|
  {
    if w == "" {
      assert w + rest == rest && cur + w == cur;
    } else {
      var c := w[0];
      assert IsSafe(c);
      assert (w + rest)[1..] == w[1..] + rest;
      assert cur + [c] + w[1..] == cur + w;
      WordsOfBare(w[1..], rest, cur + [c], true);
    }
  }

  /** Inside the quotes, the text between single quotes is read as it is, and '\'' as one single quote. */
  lemma {:induction false} WordsOfEscaped(w: string, rest: string, cur: string)
    ensures WordsFrom(Escaped(w) + "'" + rest, In('\''), cur, true) == WordsFrom(rest, Out, cur + w, true)
    decreases |w|
  {
    if w == "" {
      assert (Escaped(w) + "'" + rest)[1..] == rest && cur + w == cur;
    } else {
      var tail := Escaped(w[1..]) + "'" + rest;
      assert cur + [w[0]] + w[1..] == cur + w;
      if w[0] == '\'' {
        var t := Escaped(w) + "'" + rest;
        assert t == "'\\''" + tail;
        assert t[1..] == "\\''" + tail;
        assert t[1..][2..] == "'" + tail;
        assert t[1..][2..][1..] == tail;
        assert WordsFrom(t[1..], Out, cur, true) == WordsFrom(t[1..][2..], Out, cur + ['\''], true);
      } else {
        assert Escaped(w) + "'" + rest == [w[0]] + tail;
        assert (Escaped(w) + "'" + rest)[1..] == tail;
      }
      WordsOfEscaped(w[1..], rest, cur + [w[0]]);
    }
  }

  lemma WordsOfQuoted(w: string, rest: string, cur: string, started: bool)
    ensures WordsFrom(Quote(w) + rest, Out, cur, started) == WordsFrom(rest, Out, cur + w, true)
  {
    if Bare(w) {
      WordsOfBare(w, rest, cur, started);
    } else {
      hide Escaped;
      assert (Quote(w) + rest)[1..] == Escaped(w) + "'" + rest;
      WordsOfEscaped(w, rest, cur);
    }
  }

  /** shellWords undoes ShellQuote: any words, quoted one by one and joined by blanks, are read back. */
  lemma {:induction false} WordsRoundTrip(ws: seq<string>)
    ensures Words(PrintWords(ws)) == ws
  {
    if ws != [] {
      var w, rest := ws[0], if |ws| == 1 then "" else " " + PrintWords(ws[1..]);
      assert PrintWords(ws) == Quote(w) + rest;
      WordsOfQuoted(w, rest, "", false);
      assert "" + w == w;
      if |ws| > 1 {
        assert rest[1..] == PrintWords(ws[1..]);
        WordsRoundTrip(ws[1..]);
        assert [w] + ws[1..] == ws;
      }
    }
  }

  // ---- Segments ----

  lemma {:induction false} SegmentsOfBare(w: string, rest: string, cur: string)
    requires forall i :: 0 <= i < |w| ==> IsSafe(w[i]) || w[i] == ' ' || w[i] == '\t'
    ensures SegmentsFrom(w + rest, Out, cur) == SegmentsFrom(rest, Out, cur + w)
    decreases |w|
  {
    if w == "" {
      assert w + rest == rest && cur + w == cur;
    } else {
      assert IsSafe(w[0]) || w[0] == ' ' || w[0] == '\t';
      assert (w + rest)[1..] == w[1..] + rest;
      assert cur + [w[0]] + w[1..] == cur + w;
      SegmentsOfBare(w[1..], rest, cur + [w[0]]);
    }
  }

  /** One character of a word, as printed, moves the reader the way Passes follows it. */
  lemma StepOfQuote(t: string, m: Mode, cur: string)
    requires m.In? ==> m.quote == '\'' || m.quote == '"'
    ensures SegmentsFrom("'\\''" + t, m, cur)
         == SegmentsFrom(t, if m == Out then In('\'') else if m == In('\'') then Out else m, cur + "'\\''")
  {
    var s := "'\\''" + t;
    assert s[1..] == "\\''" + t;
    assert s[1..][1..] == "''" + t;
    assert s[1..][1..][1..] == "'" + t;
    assert s[1..][1..][1..][1..] == t;
    assert s[1..][2..] == "'" + t;
    assert cur + ['\''] + ['\\'] + ['\''] + ['\''] == cur + "'\\''";
    assert cur + ['\''] + ['\\', '\''] + ['\''] == cur + "'\\''";
    if m == Out {
      assert SegmentsFrom(s, m, cur) == SegmentsFrom("\\''" + t, In('\''), cur + ['\'']);
      assert SegmentsFrom("\\''" + t, In('\''), cur + ['\'']) == SegmentsFrom("''" + t, In('\''), cur + ['\''] + ['\\']);
      assert SegmentsFrom("''" + t, In('\''), cur + ['\''] + ['\\']) == SegmentsFrom("'" + t, Out, cur + ['\''] + ['\\'] + ['\'']);
      assert ("'" + t)[1..] == t;
    } else if m == In('\'') {
      assert SegmentsFrom(s, m, cur) == SegmentsFrom("\\''" + t, Out, cur + ['\'']);
      assert SegmentsFrom("\\''" + t, Out, cur + ['\'']) == SegmentsFrom("''" + t, Out, cur + ['\''] + ['\\']);
    } else {
      assert SegmentsFrom(s, m, cur) == SegmentsFrom("\\''" + t, m, cur + ['\'']);
      assert SegmentsFrom("\\''" + t, m, cur + ['\'']) == SegmentsFrom("'" + t, m, cur + ['\''] + ['\\', '\'']);
      assert ("'" + t)[1..] == t;
    }
  }

  lemma {:induction false} SegmentsOfPassing(w: string, rest: string, m: Mode, cur: string)
    requires Passes(w, m) && (m.In? ==> m.quote == '\'' || m.quote == '"')
    ensures SegmentsFrom(Escaped(w) + "'" + rest, m, cur) == SegmentsFrom(rest, Out, cur + Escaped(w) + "'")
    decreases |w|
  {
    var s := Escaped(w) + "'" + rest;
    if w == "" {
      assert s[1..] == rest && cur + Escaped(w) + "'" == cur + ['\''];
    } else {
      var tail := Escaped(w[1..]) + "'" + rest;
      if w[0] == '\'' {
        assert s == "'\\''" + tail;
        StepOfQuote(tail, m, cur);
        assert cur + Escaped(w) + "'" == cur + "'\\''" + Escaped(w[1..]) + "'";
        SegmentsOfPassing(w[1..], rest, if m == Out then In('\'') else if m == In('\'') then Out else m, cur + "'\\''");
      } else if m == In('"') && w[0] == '\\' {
        SegmentsOfEscapedPair(w, rest, cur);
        var pair := if w[1] == '\'' then "\\'\\''" else [w[0], w[1]];
        assert cur + Escaped(w) + "'" == cur + pair + Escaped(w[2..]) + "'";
        SegmentsOfPassing(w[2..], rest, m, cur + pair);
      } else {
        assert s == [w[0]] + tail;
        assert cur + Escaped(w) + "'" == cur + [w[0]] + Escaped(w[1..]) + "'";
        var m' := if m == In('"') && w[0] == '"' then Out else if m == Out && w[0] == '"' then In('"') else m;
        SegmentsOfPassing(w[1..], rest, m', cur + [w[0]]);
      }
    }
  }

  /** Inside double quotes a backslash takes what is printed after it. */
  lemma SegmentsOfEscapedPair(w: string, rest: string, cur: string)
    requires |w| >= 2 && w[0] == '\\'
    ensures
      var pair := if w[1] == '\'' then "\\'\\''" else [w[0], w[1]];
      && Escaped(w) == (if w[1] == '\'' then "\\'\\''" else [w[0], w[1]]) + Escaped(w[2..])
      && SegmentsFrom(Escaped(w) + "'" + rest, In('"'), cur)
         == SegmentsFrom(Escaped(w[2..]) + "'" + rest, In('"'), cur + pair)
  {
    var s := Escaped(w) + "'" + rest;
    var t := Escaped(w[2..]) + "'" + rest;
    assert Escaped(w) == [w[0]] + Escaped(w[1..]);
    assert w[1..][1..] == w[2..];
    if w[1] == '\'' {
      assert Escaped(w[1..]) == "'\\''" + Escaped(w[2..]);
      assert Escaped(w) == "\\'\\''" + Escaped(w[2..]);
      assert s == "\\'\\''" + t;
      assert s[2..] == "\\''" + t;
      assert s[2..][2..] == "'" + t;
      assert s[2..][2..][1..] == t;
      assert cur + ['\\', '\''] + ['\\', '\''] + ['\''] == cur + "\\'\\''";
      assert SegmentsFrom(s, In('"'), cur) == SegmentsFrom("\\''" + t, In('"'), cur + ['\\', '\'']);
      assert SegmentsFrom("\\''" + t, In('"'), cur + ['\\', '\'']) == SegmentsFrom("'" + t, In('"'), cur + ['\\', '\''] + ['\\', '\'']);
      assert ("'" + t)[1..] == t;
    } else {
      assert Escaped(w[1..]) == [w[1]] + Escaped(w[2..]);
      assert Escaped(w) == [w[0], w[1]] + Escaped(w[2..]);
      assert s == [w[0], w[1]] + t;
      assert s[2..] == t;
    }
  }

  lemma QuoteStarts(u: string, cur: string)
    ensures SegmentsFrom(['\''] + u, Out, cur) == SegmentsFrom(u, In('\''), cur + ['\''])
  {
    assert (['\''] + u)[1..] == u;
  }

  lemma QuoteIs(w: string)
    ensures Quote(w) == if Bare(w) then w else "'" + Escaped(w) + "'"
  {
  }

  lemma QuotedText(e: string, rest: string, cur: string)
    ensures "'" + e + "'" + rest == ['\''] + (e + "'" + rest) && cur + ['\''] + e + "'" == cur + ("'" + e + "'")
  {
  }

  lemma SegmentsOfQuoted(w: string, rest: string, cur: string)
    requires Survives(w)
    ensures SegmentsFrom(Quote(w) + rest, Out, cur) == SegmentsFrom(rest, Out, cur + Quote(w))
  {
    hide SegmentsFrom, Quote, Escaped, Passes, Bare;
    QuoteIs(w);
    if Bare(w) {
      BareIsSafe(w);
      SegmentsOfBare(w, rest, cur);
    } else {
      QuotedText(Escaped(w), rest, cur);
      QuoteStarts(Escaped(w) + "'" + rest, cur);
      SegmentsOfPassing(w, rest, In('\''), cur + ['\'']);
    }
  }

  lemma BareIsSafe(w: string)
    requires Bare(w)
    ensures forall i :: 0 <= i < |w| ==> IsSafe(w[i])
  {
  }

  /** Outside quotes, `t` is read into the current segment and leaves the reader outside quotes. */
  ghost predicate Neutral(t: string) {
    forall rest, cur :: SegmentsFrom(t + rest, Out, cur) == SegmentsFrom(rest, Out, cur + t)
  }

  lemma NeutralJoin(a: string, b: string)
    requires Neutral(a) && Neutral(b)
    ensures Neutral(a + b)
  {
    forall rest, cur
      ensures SegmentsFrom(a + b + rest, Out, cur) == SegmentsFrom(rest, Out, cur + (a + b))
    {
      assert a + b + rest == a + (b + rest) && cur + (a + b) == cur + a + b;
    }
  }

  lemma NeutralBlank(t: string)
    requires Blank(t)
    ensures Neutral(t)
  {
    forall rest, cur
      ensures SegmentsFrom(t + rest, Out, cur) == SegmentsFrom(rest, Out, cur + t)
    {
      SegmentsOfBare(t, rest, cur);
    }
  }

  lemma {:induction false} NeutralWords(ws: seq<string>)
    requires ws != [] && forall k :: 0 <= k < |ws| ==> Survives(ws[k])
    ensures Neutral(PrintWords(ws))
  {
    forall rest, cur
      ensures SegmentsFrom(Quote(ws[0]) + rest, Out, cur) == SegmentsFrom(rest, Out, cur + Quote(ws[0]))
    {
      SegmentsOfQuoted(ws[0], rest, cur);
    }
    if |ws| > 1 {
      NeutralBlank(" ");
      NeutralJoin(Quote(ws[0]), " ");
      NeutralWords(ws[1..]);
      NeutralJoin(Quote(ws[0]) + " ", PrintWords(ws[1..]));
    }
  }

  lemma SegmentsOfJoint(j: Joint, rest: string, cur: string)
    requires rest != "" && rest[0] != '|' && rest[0] != '&'
    ensures SegmentsFrom(JointText(j) + rest, Out, cur) == Flush(cur, PipesOn(j)) + SegmentsFrom(rest, Out, "")
  {
    var s := JointText(j) + rest;
    assert s[|JointText(j)|..] == rest;
    if j == And {
      assert s[1..][0] == '&' && s[1..][1..] == rest;
      assert SegmentsFrom(s[1..], Out, "") == Flush("", false) + SegmentsFrom(rest, Out, "");
      assert Flush("", false) == [];
      assert Flush("", false) + SegmentsFrom(rest, Out, "") == SegmentsFrom(rest, Out, "");
    }
  }

  /** What a printed command starts and ends with is no white space and no separator. */
  predicate Solid(t: string) {
    && t != ""
    && (IsSafe(t[0]) || t[0] == '\'')
    && (IsSafe(t[|t| - 1]) || t[|t| - 1] == '\'')
  }

  lemma {:induction false} PrintedIsSolid(ws: seq<string>)
    requires ws != []
    ensures Solid(PrintWords(ws))
  {
    if |ws| > 1 { PrintedIsSolid(ws[1..]); }
  }

  lemma {:induction false} TrimStartBlank(pad: string, t: string)
    requires Blank(pad) && Solid(t)
    ensures TrimStart(pad + t) == t
  {
    if pad == "" {
      assert pad + t == t;
    } else {
      assert pad[0] == ' ' || pad[0] == '\t';
      assert (pad + t)[1..] == pad[1..] + t;
      TrimStartBlank(pad[1..], t);
    }
  }

  lemma {:induction false} TrimEndBlank(t: string, pad: string)
    requires Blank(pad) && Solid(t)
    ensures TrimEnd(t + pad) == t
  {
    if pad == "" {
      assert t + pad == t;
    } else {
      var n := |pad| - 1;
      assert pad[n] == ' ' || pad[n] == '\t';
      assert (t + pad)[..|t + pad| - 1] == t + pad[..n];
      TrimEndBlank(t, pad[..n]);
    }
  }

  lemma TrimPadded(before: string, t: string, after: string)
    requires Blank(before) && Blank(after) && Solid(t)
    ensures Trim(before + t + after) == t
  {
    assert before + t + after == before + (t + after);
    if after == "" {
      assert t + after == t;
      TrimStartBlank(before, t);
    } else {
      TrimStartTo(before, t, after);
    }
    TrimEndBlank(t, after);
  }

  lemma {:induction false} TrimStartTo(pad: string, t: string, after: string)
    requires Blank(pad) && Solid(t)
    ensures TrimStart(pad + (t + after)) == t + after
  {
    if pad == "" {
      assert pad + (t + after) == t + after;
    } else {
      assert pad[0] == ' ' || pad[0] == '\t';
      assert (pad + (t + after))[1..] == pad[1..] + (t + after);
      TrimStartTo(pad[1..], t, after);
    }
  }

  /** A printed command, blanks and a joint: one segment, and the reader starts afresh after it. */
  lemma SegmentsOfCommand(t: string, pad: string, before: string, joint: Joint, tail: string)
    requires Neutral(t) && Solid(t) && Blank(pad) && Blank(before)
    requires tail != "" && tail[0] != '|' && tail[0] != '&'
    ensures SegmentsFrom((t + before) + (JointText(joint) + tail), Out, pad)
         == [Segment(t, PipesOn(joint))] + SegmentsFrom(tail, Out, "")
  {
    NeutralBlank(before);
    NeutralJoin(t, before);
    SegmentsOfJoint(joint, tail, pad + (t + before));
    assert pad + (t + before) == pad + t + before;
    TrimPadded(pad, t, before);
  }

  lemma SegmentsOfLast(t: string, pad: string)
    requires Neutral(t) && Solid(t) && Blank(pad)
    ensures SegmentsFrom(t, Out, pad) == [Segment(t, false)]
  {
    assert t + "" == t && pad + t + "" == pad + t;
    assert SegmentsFrom(t + "", Out, pad) == SegmentsFrom("", Out, pad + t);
    TrimPadded(pad, t, "");
  }

  lemma {:induction false} SegmentsOfLine(l: Line, pad: string)
    requires ValidLine(l) && LineSurvives(l) && Blank(pad)
    ensures SegmentsFrom(PrintLine(l), Out, pad) == LineSegments(l)
  {
    hide SegmentsFrom, Neutral, JointText, PrintWords, Survives;
    var t := PrintWords(l.words);
    assert Solid(t) by { PrintedIsSolid(l.words); }
    match l
    case Last(ws) =>
      assert SegmentsFrom(t, Out, pad) == [Segment(t, false)] by { NeutralWords(ws); SegmentsOfLast(t, pad); }
    case Then(ws, before, joint, after, rest) =>
      var p := PrintLine(rest);
      PrintLineStart(rest);
      var tail := after + p;
      assert SegmentsFrom(tail, Out, "") == SegmentsFrom(p, Out, after) by {
        SegmentsOfBare(after, p, "");
        assert "" + after == after;
      }
      SegmentsOfLine(rest, after);
      var whole := (t + before) + (JointText(joint) + tail);
      assert SegmentsFrom(whole, Out, pad) == [Segment(t, PipesOn(joint))] + LineSegments(rest) by {
        NeutralWords(ws);
        SegmentsOfCommand(t, pad, before, joint, tail);
      }
      assert PrintLine(l) == whole;
  }

  lemma PrintLineStart(l: Line)
    requires ValidLine(l)
    ensures PrintLine(l) != "" && (IsSafe(PrintLine(l)[0]) || PrintLine(l)[0] == '\'')
  {
    PrintedIsSolid(l.words);
  }

  /** splitSegments undoes the printing of a line: one segment per command, with its printed text and
      with `pipes` exactly before a single |; and shellWords reads each command's words back. */
  lemma LineRoundTrip(l: Line)
    requires ValidLine(l) && LineSurvives(l)
    ensures Segments(PrintLine(l)) == LineSegments(l)
    ensures LineWords(Segments(PrintLine(l))) == Commands(l)
  {
    SegmentsOfLine(l, "");
    CommandsOfLine(l);
  }

  function Commands(l: Line): (cs: seq<seq<string>>) {
    match l
    case Last(ws) => [ws]
    case Then(ws, _, _, _, rest) => [ws] + Commands(rest)
  }

  function LineWords(ss: seq<Segment>): (cs: seq<seq<string>>)
    ensures |cs| == |ss|
  {
    seq(|ss|, k requires 0 <= k < |ss| => Words(ss[k].text))
  }

  lemma {:induction false} CommandsOfLine(l: Line)
    ensures LineWords(LineSegments(l)) == Commands(l)
  {
    hide PrintWords, Words;
    WordsRoundTrip(l.words);
    if l.Then? {
      CommandsOfLine(l.rest);
      assert LineWords(LineSegments(l))[1..] == LineWords(LineSegments(l.rest));
    }
  }

  // ---- Which words pass ----

  predicate QuoteFree(w: string) {
    '\'' !in w
  }

  /** A word without single quotes is protected whole. */
  lemma {:induction false} QuoteFreeSurvives(w: string)
    requires QuoteFree(w)
    ensures Passes(w, In('\''))
  {
    if w != "" {
      assert w[0] in w && forall c :: c in w[1..] ==> c in w;
      QuoteFreeSurvives(w[1..]);
    }
  }

  /** The line of two commands, `w` and x. */
  function Probe(w: string): Line {
    Then([w], "", Semi, "", Last(["x"]))
  }

  /** An ordinary character, or a double quote, inside or outside quotes. */
  lemma StepOfPlain(c: char, tail: string, m: Mode, cur: string)
    requires c != '\'' && (m.In? ==> m.quote == '\'' || m.quote == '"')
    requires m == Out ==> c != '|' && !IsBreak(c)
    requires m == In('"') ==> c != '\\'
    ensures
      var m' := if m == In('"') && c == '"' then Out else if m == Out && c == '"' then In('"') else m;
      SegmentsFrom([c] + tail, m, cur) == SegmentsFrom(tail, m', cur + [c])
  {
    assert ([c] + tail)[1..] == tail;
  }

  /** A separator outside quotes ends the segment. */
  lemma StepOfBreak(c: char, tail: string, cur: string)
    requires c == '|' || IsBreak(c)
    requires cur != "" && cur[0] == '\''
    ensures var ss := SegmentsFrom([c] + tail, Out, cur); |ss| >= 1 && |ss[0].text| <= |cur|
  {
    FlushesQuote(cur);
  }

  /** A word the reader does not pass through: either a separator is read bare, and the first segment is
      cut short, or the closing quote opens another, and the second command is swallowed. */
  lemma {:induction false} CutOrSwallowed(w: string, m: Mode, cur: string, whole: string)
    requires !Passes(w, m) && (m.In? ==> m.quote == '\'' || m.quote == '"')
    requires whole == cur + Escaped(w) + "'" && cur != "" && cur[0] == '\''
    ensures CutShort(SegmentsFrom(Escaped(w) + "';x", m, cur), whole)
    decreases |w|
  {
    var s := Escaped(w) + "';x";
    if w == "" || (m == In('"') && w == "\\") {
      SwallowedAtEnd(w, m, cur);
    } else if w[0] == '\'' {
      var tail := Escaped(w[1..]) + "';x";
      assert s == "'\\''" + tail;
      StepOfQuote(tail, m, cur);
      CutOrSwallowed(w[1..], if m == Out then In('\'') else if m == In('\'') then Out else m, cur + "'\\''", whole);
    } else if m == In('"') && w[0] == '\\' {
      assert s == Escaped(w) + "'" + ";x" && Escaped(w[2..]) + "'" + ";x" == Escaped(w[2..]) + "';x";
      SegmentsOfEscapedPair(w, ";x", cur);
      CutOrSwallowed(w[2..], m, cur + (if w[1] == '\'' then "\\'\\''" else [w[0], w[1]]), whole);
    } else {
      var tail := Escaped(w[1..]) + "';x";
      assert s == [w[0]] + tail;
      if m == Out && (w[0] == '|' || IsBreak(w[0])) {
        StepOfBreak(w[0], tail, cur);
      } else {
        StepOfPlain(w[0], tail, m, cur);
        var m' := if m == In('"') && w[0] == '"' then Out else if m == Out && w[0] == '"' then In('"') else m;
        CutOrSwallowed(w[1..], m', cur + [w[0]], whole);
      }
    }
  }

  ghost predicate CutShort(ss: seq<Segment>, whole: string) {
    |ss| >= 1 && (|ss| == 1 || |ss[0].text| < |whole|)
  }

  lemma SwallowedAtEnd(w: string, m: Mode, cur: string)
    requires cur != "" && cur[0] == '\''
    requires (w == "" && (m == Out || m == In('"'))) || (w == "\\" && m == In('"'))
    ensures |SegmentsFrom(Escaped(w) + "';x", m, cur)| == 1
  {
    var s := Escaped(w) + "';x";
    if w == "" {
      assert s == "';x" && s[1..] == ";x";
      Swallowed(if m == Out then In('\'') else m, cur + ['\'']);
    } else {
      assert Escaped(w[1..]) == "";
      assert s == "\\';x" && s[2..] == ";x";
      Swallowed(m, cur + ['\\', '\'']);
    }
  }

  /** In a quote that never closes, the rest of the line is one segment. */
  lemma Swallowed(m: Mode, cur: string)
    requires m == In('\'') || m == In('"')
    requires cur != "" && cur[0] == '\''
    ensures |SegmentsFrom(";x", m, cur)| == 1
  {
    assert ";x"[1..] == "x" && "x"[1..] == "";
    assert SegmentsFrom(";x", m, cur) == SegmentsFrom("x", m, cur + [';']);
    assert SegmentsFrom("x", m, cur + [';']) == SegmentsFrom("", m, cur + [';'] + ['x']);
    FlushesQuote(cur + [';'] + ['x']);
  }

  lemma FlushesQuote(cur: string)
    requires cur != "" && cur[0] == '\''
    ensures forall p :: |Flush(cur, p)| == 1 && |Flush(cur, p)[0].text| <= |cur|
  {
    assert TrimStart(cur) == cur;
    TrimEndKeeps(cur);
  }

  lemma {:induction false} TrimEndKeeps(s: string)
    requires s != "" && !IsSpaceRune(s[0])
    ensures TrimEnd(s) != ""
  {
    if IsSpaceRune(s[|s| - 1]) { TrimEndKeeps(s[..|s| - 1]); }
  }

  lemma ProbeText(w: string)
    ensures Survives("x") && PrintLine(Probe(w)) == Quote(w) + ";x" && LineSegments(Probe(w)) == [Segment(Quote(w), false), Segment("x", false)]
  {
    hide Quote;
    assert Quote("x") == "x" by { XIsBare(); }
    assert PrintWords(["x"]) == "x" && PrintLine(Last(["x"])) == "x" && PrintWords([w]) == Quote(w);
    assert PrintLine(Probe(w)) == Quote(w) + "" + ";" + "" + "x" == Quote(w) + ";x";
  }

  lemma XIsBare()
    ensures Bare("x") && Quote("x") == "x"
  {
  }

  lemma ProbeSurvives(w: string)
    requires Survives(w)
    ensures Segments(PrintLine(Probe(w))) == LineSegments(Probe(w))
  {
    hide Survives, PrintLine, Segments;
    ProbeText(w);
    assert LineSurvives(Probe(w));
    LineRoundTrip(Probe(w));
  }

  /** The exact condition on a word: the line that runs it and then another command reads back as two
      commands exactly when the word survives. */
  lemma ProbeIffSurvives(w: string)
    ensures Segments(PrintLine(Probe(w))) == LineSegments(Probe(w)) <==> Survives(w)
  {
    ProbeText(w);
    if Survives(w) {
      ProbeSurvives(w);
    } else {
      hide PrintLine, Passes;
      var l := PrintLine(Probe(w));
      assert l[1..] == Escaped(w) + "';x";
      assert Segments(l) == SegmentsFrom(l[1..], In('\''), "" + ['\'']) && "" + ['\''] == ['\''];
      CutOrSwallowed(w, In('\''), ['\''], Quote(w));
    }
  }

  /** A word with a single quote can break a line: it's swallows the command after it. */
  lemma SingleQuoteSwallows()
    ensures !Survives("it's")
    ensures Segments(PrintLine(Probe("it's"))) != LineSegments(Probe("it's"))
  {
    var w := "it's";
    assert w[1..] == "t's" && "t's"[1..] == "'s" && "'s"[1..] == "s" && "s"[1..] == "";
    assert !Passes("s", Out);
    assert !Passes("'s", In('\''));
    assert !Passes("t's", In('\''));
    assert !IsSafe(w[2]);
    ProbeIffSurvives(w);
  }
}
