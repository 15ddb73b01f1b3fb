/** The readers and the printer as the code runs them, proved against their meaning. */
module ShellReader {
  import opened Shell
  import ShellTheorems

  method ShellWords(s: string) returns (words: seq<string>)
    ensures words == Words(s)
  {
    words := [];
    var cur, started, m, i := "", false, Out, 0;
    while i < |s|
      invariant 0 <= i <= |s|
      invariant words + WordsFrom(s[i..], m, cur, started) == Words(s)
    {
      var c := s[i];
      ghost var rest := s[i..];
      assert rest[1..] == s[i + 1..] && (i + 1 < |s| ==> rest[2..] == s[i + 2..]);
      if m.In? {
        if c == m.quote {
          m := Out;
        } else if c == '\\' && m.quote == '"' && i + 1 < |s| {
          i := i + 1;
          cur := cur + [s[i]];
        } else {
          cur := cur + [c];
        }
      } else if c == '\'' || c == '"' {
        m, started := In(c), true;
      } else if c == '\\' && i + 1 < |s| {
        i := i + 1;
        cur, started := cur + [s[i]], true;
      } else if c == ' ' || c == '\t' {
        if started {
          assert words + ([cur] + WordsFrom(s[i + 1..], Out, "", false)) == words + [cur] + WordsFrom(s[i + 1..], Out, "", false);
          words, cur, started := words + [cur], "", false;
        }
      } else {
        cur, started := cur + [c], true;
      }
      i := i + 1;
    }
    if started {
      words := words + [cur];
    }
  }

  method SplitSegments(s: string) returns (segs: seq<Segment>)
    ensures segs == Segments(s)
  {
    hide Flush;
    segs := [];
    var cur, m, i := "", Out, 0;
    while i < |s|
      invariant 0 <= i <= |s|
      invariant segs + SegmentsFrom(s[i..], m, cur) == Segments(s)
    {
      var c := s[i];
      ghost var rest := s[i..];
      assert rest[1..] == s[i + 1..] && (i + 1 < |s| ==> rest[2..] == s[i + 2..]);
      if m.In? {
        if c == m.quote {
          m, cur := Out, cur + [c];
        } else if c == '\\' && m.quote == '"' && i + 1 < |s| {
          cur, i := cur + [c, s[i + 1]], i + 1;
        } else {
          cur := cur + [c];
        }
      } else if c == '\'' || c == '"' {
        m, cur := In(c), cur + [c];
      } else if c == '|' {
        var pipe := false;
        if i + 1 < |s| && s[i + 1] == '|' {
          i := i + 1;
        } else {
          pipe := true;
          if i + 1 < |s| && s[i + 1] == '&' {
            i := i + 1;
          }
        }
        assert segs + (Flush(cur, pipe) + SegmentsFrom(s[i + 1..], Out, "")) == (segs + Flush(cur, pipe)) + SegmentsFrom(s[i + 1..], Out, "");
        segs, cur := segs + Flush(cur, pipe), "";
      } else if IsBreak(c) {
        assert segs + (Flush(cur, false) + SegmentsFrom(s[i + 1..], Out, "")) == (segs + Flush(cur, false)) + SegmentsFrom(s[i + 1..], Out, "");
        segs, cur := segs + Flush(cur, false), "";
      } else {
        cur := cur + [c];
      }
      i := i + 1;
    }
    segs := segs + Flush(cur, false);
  }

  /** RemoteCommand: sh -c with the script quoted, a name for $0, and every argument quoted. Whatever the
      script and the arguments hold, reading the command gives them back. */
  method RemoteCommand(script: string, args: seq<string>) returns (r: string)
    ensures r == PrintWords(["sh", "-c", script, "rowsafe"] + args)
    ensures Words(r) == ["sh", "-c", script, "rowsafe"] + args
  {
    hide Quote, Words, PrintWords, Join;
    var words := ["sh", "-c", Quote(script), "rowsafe"];
    ghost var head := ["sh", "-c", script, "rowsafe"];
    HeadQuoted(script);
    var i := 0;
    while i < |args|
      invariant 0 <= i <= |args|
      invariant words == QuoteAll(head + args[..i])
    {
      words := words + [Quote(args[i])];
      assert head + args[..i + 1] == head + args[..i] + [args[i]];
      i := i + 1;
    }
    assert args[..i] == args;
    r := Join(words);
    JoinQuoted(head + args);
    ShellTheorems.WordsRoundTrip(head + args);
  }

  lemma HeadQuoted(script: string)
    ensures QuoteAll(["sh", "-c", script, "rowsafe"]) == ["sh", "-c", Quote(script), "rowsafe"]
  {
  }

  function QuoteAll(ws: seq<string>): (r: seq<string>) {
    seq(|ws|, i requires 0 <= i < |ws| => Quote(ws[i]))
  }

  /** strings.Join(words, " "). */
  function Join(ws: seq<string>): string {
    if ws == [] then "" else if |ws| == 1 then ws[0] else ws[0] + " " + Join(ws[1..])
  }

  lemma {:induction false} JoinQuoted(ws: seq<string>)
    ensures Join(QuoteAll(ws)) == PrintWords(ws)
  {
    if |ws| > 1 {
      assert QuoteAll(ws)[1..] == QuoteAll(ws[1..]);
      JoinQuoted(ws[1..]);
    }
  }
}
