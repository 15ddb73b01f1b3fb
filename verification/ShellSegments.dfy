/** Command lines as anyone may write them: texts between separators, quoted or not. The segments of a line are
    the texts it was written from. */
module ShellSegments {
  import opened Shell
  import opened ShellWritten

  // ---- What can be written ----

  /** A part of a command: outside quotes a backslash is a character like any other. */
  datatype Piece =
    | Bare(c: char)
    | Quoted(text: string)
    | DoubleQuoted(items: seq<Item>)
    | OpenQuoted(text: string)
    | OpenDoubleQuoted(items: seq<Item>)

  datatype Separator = Semi | NewLine | Amp | OpenParen | CloseParen | Bar | DoubleBar | BarAmp

  /** A command's text and the separator after it. */
  datatype Command = Command(pieces: seq<Piece>, sep: Separator)

  function PrintPiece(p: Piece): string {
    match p
    case Bare(c) => [c]
    case Quoted(t) => "'" + t + "'"
    case DoubleQuoted(items) => "\"" + PrintItems(items) + "\""
    case OpenQuoted(t) => "'" + t
    case OpenDoubleQuoted(items) => "\"" + PrintItems(items)
  }

  function PrintPieces(ps: seq<Piece>): string {
    if ps == [] then "" else PrintPiece(ps[0]) + PrintPieces(ps[1..])
  }

  function PrintSeparator(x: Separator): string {
    match x
    case Semi => ";"
    case NewLine => "\n"
    case Amp => "&"
    case OpenParen => "("
    case CloseParen => ")"
    case Bar => "|"
    case DoubleBar => "||"
    case BarAmp => "|&"
  }

  function PrintCommands(cs: seq<Command>, last: seq<Piece>): string {
    if cs == [] then PrintPieces(last)
    else PrintPieces(cs[0].pieces) + (PrintSeparator(cs[0].sep) + PrintCommands(cs[1..], last))
  }

  // ---- When it can be written there ----

  predicate IsSeparator(c: char) {
    c == ';' || c == '\n' || c == '&' || c == '(' || c == ')' || c == '|'
  }

  predicate PieceValid(p: Piece, rest: string) {
    match p
    case Bare(c) => c != '\'' && c != '"' && !IsSeparator(c)
    case Quoted(t) => '\'' !in t
    case DoubleQuoted(items) => ItemsValid(items, false)
    case OpenQuoted(t) => '\'' !in t && rest == ""
    case OpenDoubleQuoted(items) => ItemsValid(items, true) && rest == ""
  }

  predicate PiecesValid(ps: seq<Piece>, rest: string) {
    ps == [] || (PieceValid(ps[0], PrintPieces(ps[1..]) + rest) && PiecesValid(ps[1..], rest))
  }

  /** A single bar is not followed by what would make it another separator. */
  predicate CommandsValid(cs: seq<Command>, last: seq<Piece>) {
    if cs == [] then PiecesValid(last, "")
    else
      var rest := PrintCommands(cs[1..], last);
      && PiecesValid(cs[0].pieces, PrintSeparator(cs[0].sep) + rest)
      && (cs[0].sep == Bar ==> rest == "" || (rest[0] != '|' && rest[0] != '&'))
      && CommandsValid(cs[1..], last)
  }

  // ---- What it means ----

  predicate Pipes(x: Separator) {
    x == Bar || x == BarAmp
  }

  /** A command's segment: its text without the blanks around it, unless there is none. */
  function SegmentOf(ps: seq<Piece>, pipes: bool): seq<Segment> {
    var t := Trim(PrintPieces(ps));
    if t == "" then [] else [Segment(t, pipes)]
  }

  function SegmentsOf(cs: seq<Command>, last: seq<Piece>): seq<Segment> {
    if cs == [] then SegmentOf(last, false)
    else SegmentOf(cs[0].pieces, Pipes(cs[0].sep)) + SegmentsOf(cs[1..], last)
  }

  // ---- Reading it ----

  lemma {:induction false} QuotedPasses(t: string, rest: string, cur: string)
    requires '\'' !in t
    ensures SegmentsFrom(t + "'" + rest, In('\''), cur) == SegmentsFrom(rest, Out, cur + (t + "'"))
    ensures SegmentsFrom(t, In('\''), cur) == Flush(cur + t, false)
    decreases |t|
  {
    if t == "" {
      assert (t + "'" + rest)[1..] == rest && cur + t == cur && t + "'" == "'";
    } else {
      assert t[0] in t && forall c :: c in t[1..] ==> c in t;
      QuotedPasses(t[1..], rest, cur + [t[0]]);
      assert (t + "'" + rest)[1..] == t[1..] + "'" + rest;
      assert cur + [t[0]] + t[1..] == cur + t && cur + [t[0]] + (t[1..] + "'") == cur + (t + "'");
    }
  }

  lemma ItemPasses(x: Item, u: string, cur: string)
    requires x.Plain? ==> x.c != '"' && (x.c == '\\' ==> u == "")
    ensures SegmentsFrom(PrintItem(x) + u, In('"'), cur) == SegmentsFrom(u, In('"'), cur + PrintItem(x))
  {
    var s := PrintItem(x) + u;
    assert s[|PrintItem(x)|..] == u && s[0] == PrintItem(x)[0] && (x.Slashed? ==> s[1] == x.c);
  }

  lemma {:induction false} DoublePasses(items: seq<Item>, rest: string, cur: string)
    requires ItemsValid(items, false)
    ensures SegmentsFrom(PrintItems(items) + "\"" + rest, In('"'), cur)
         == SegmentsFrom(rest, Out, cur + (PrintItems(items) + "\""))
    decreases |items|
  {
    if items == [] {
      assert (PrintItems(items) + "\"" + rest)[1..] == rest && PrintItems(items) + "\"" == "\"";
    } else {
      hide SegmentsFrom, PrintItem;
      var x, v := items[0], PrintItems(items[1..]);
      Joins(PrintItem(x), v, "\"");
      Joins(PrintItem(x), v + "\"", rest);
      ItemPasses(x, v + "\"" + rest, cur);
      DoublePasses(items[1..], rest, cur + PrintItem(x));
      Joins(cur, PrintItem(x), v + "\"");
    }
  }

  lemma {:induction false} OpenDoublePasses(items: seq<Item>, cur: string)
    requires ItemsValid(items, true)
    ensures SegmentsFrom(PrintItems(items), In('"'), cur) == Flush(cur + PrintItems(items), false)
    decreases |items|
  {
    if items == [] {
      assert cur + "" == cur;
    } else {
      var x, u := items[0], PrintItems(items[1..]);
      assert x == Plain('\\') ==> u == "";
      hide SegmentsFrom, PrintItem;
      ItemPasses(x, u, cur);
      OpenDoublePasses(items[1..], cur + PrintItem(x));
      Joins(cur, PrintItem(x), u);
    }
  }

  lemma OpensQuote(q: char, u: string, cur: string)
    requires q == '\'' || q == '"'
    ensures SegmentsFrom([q] + u, Out, cur) == SegmentsFrom(u, In(q), cur + [q])
  {
    assert ([q] + u)[1..] == u;
  }

  lemma BarePasses(c: char, rest: string, cur: string)
    requires PieceValid(Bare(c), rest)
    ensures SegmentsFrom([c] + rest, Out, cur) == SegmentsFrom(rest, Out, cur + [c])
  {
    assert ([c] + rest)[1..] == rest;
  }

  lemma ClosedPasses(q: char, body: string, rest: string, cur: string)
    requires q == '\'' || q == '"'
    requires SegmentsFrom(body + [q] + rest, In(q), cur + [q]) == SegmentsFrom(rest, Out, cur + [q] + (body + [q]))
    ensures SegmentsFrom([q] + body + [q] + rest, Out, cur) == SegmentsFrom(rest, Out, cur + ([q] + body + [q]))
  {
    hide SegmentsFrom;
    assert [q] + body + [q] + rest == [q] + (body + [q] + rest);
    OpensQuote(q, body + [q] + rest, cur);
    assert cur + [q] + (body + [q]) == cur + ([q] + body + [q]);
  }

  lemma OpenPasses(q: char, body: string, cur: string)
    requires q == '\'' || q == '"'
    requires SegmentsFrom(body, In(q), cur + [q]) == Flush(cur + [q] + body, false)
    ensures SegmentsFrom([q] + body, Out, cur) == Flush(cur + ([q] + body), false)
  {
    hide SegmentsFrom, Flush;
    OpensQuote(q, body, cur);
    Joins(cur, [q], body);
  }

  lemma AtEnd(cur: string)
    ensures SegmentsFrom("", Out, cur) == Flush(cur, false)
  {
  }

  lemma PiecePasses(p: Piece, rest: string, cur: string)
    requires PieceValid(p, rest)
    ensures SegmentsFrom(PrintPiece(p) + rest, Out, cur) == SegmentsFrom(rest, Out, cur + PrintPiece(p))
  {
    hide SegmentsFrom, PrintItems, ItemsValid, Flush;
    if p.Bare? {
      BarePasses(p.c, rest, cur);
    } else if p.Quoted? {
      QuotedPasses(p.text, rest, cur + ['\'']);
      ClosedPasses('\'', p.text, rest, cur);
    } else if p.DoubleQuoted? {
      DoublePasses(p.items, rest, cur + ['"']);
      ClosedPasses('"', PrintItems(p.items), rest, cur);
    } else {
      assert PrintPiece(p) + rest == PrintPiece(p);
      AtEnd(cur + PrintPiece(p));
      if p.OpenQuoted? {
        QuotedPasses(p.text, "", cur + ['\'']);
        OpenPasses('\'', p.text, cur);
      } else {
        OpenDoublePasses(p.items, cur + ['"']);
        OpenPasses('"', PrintItems(p.items), cur);
      }
    }
  }

  lemma {:induction false} PiecesPass(ps: seq<Piece>, rest: string, cur: string)
    requires PiecesValid(ps, rest)
    ensures SegmentsFrom(PrintPieces(ps) + rest, Out, cur) == SegmentsFrom(rest, Out, cur + PrintPieces(ps))
    decreases |ps|
  {
    hide SegmentsFrom, PrintPiece, PieceValid;
    if ps == [] {
      assert PrintPieces(ps) + rest == rest && cur + "" == cur;
    } else {
      var t, v := PrintPiece(ps[0]), PrintPieces(ps[1..]);
      Joins(t, v, rest);
      PiecePasses(ps[0], v + rest, cur);
      PiecesPass(ps[1..], rest, cur + t);
      Joins(cur, t, v);
    }
  }

  lemma SeparatorCuts(x: Separator, rest: string, cur: string)
    requires x == Bar ==> rest == "" || (rest[0] != '|' && rest[0] != '&')
    ensures SegmentsFrom(PrintSeparator(x) + rest, Out, cur) == Flush(cur, Pipes(x)) + SegmentsFrom(rest, Out, "")
  {
    var s := PrintSeparator(x) + rest;
    assert s[|PrintSeparator(x)|..] == rest && s[0] == PrintSeparator(x)[0];
    assert |PrintSeparator(x)| == 2 ==> s[1] == PrintSeparator(x)[1];
    assert |PrintSeparator(x)| == 1 && rest != "" ==> s[1] == rest[0];
  }

  lemma {:induction false} CommandsRead(cs: seq<Command>, last: seq<Piece>)
    requires CommandsValid(cs, last)
    ensures Segments(PrintCommands(cs, last)) == SegmentsOf(cs, last)
    decreases |cs|
  {
    hide SegmentsFrom, PrintPieces, PiecesValid, PrintSeparator, Trim;
    if cs == [] {
      var t := PrintPieces(last);
      PiecesPass(last, "", "");
      assert t + "" == t && "" + t == t;
      AtEnd(t);
    } else {
      var t, u := PrintPieces(cs[0].pieces), PrintCommands(cs[1..], last);
      PiecesPass(cs[0].pieces, PrintSeparator(cs[0].sep) + u, "");
      assert "" + t == t;
      SeparatorCuts(cs[0].sep, u, t);
      CommandsRead(cs[1..], last);
    }
  }

  // ---- Every line is a written one ----

  lemma PieceOf(s: string) returns (p: Piece, rest: string)
    requires s != "" && !IsSeparator(s[0])
    ensures s == PrintPiece(p) + rest && PieceValid(p, rest) && |rest| < |s|
  {
    if s[0] == '\'' {
      var t, u := UpTo(s[1..], '\'');
      if u == "" {
        p, rest := OpenQuoted(t), "";
        assert s == PrintPiece(p) + rest;
      } else {
        p, rest := Quoted(t), u[1..];
        assert s == ("'" + t + "'") + rest;
      }
    } else if s[0] == '"' {
      var items, u, closed := ItemsOf(s[1..]);
      hide PrintItems, ItemsValid;
      rest := if closed then u else "";
      p := if closed then DoubleQuoted(items) else OpenDoubleQuoted(items);
      assert s == "\"" + s[1..];
      assert s == PrintPiece(p) + rest;
    } else {
      p, rest := Bare(s[0]), s[1..];
    }
  }

  lemma {:induction false} PiecesOf(s: string) returns (ps: seq<Piece>, rest: string)
    ensures s == PrintPieces(ps) + rest && PiecesValid(ps, rest) && (rest != "" ==> IsSeparator(rest[0])) && |rest| <= |s|
    decreases |s|
  {
    if s == "" || IsSeparator(s[0]) {
      ps, rest := [], s;
    } else {
      hide PieceValid, PrintPiece;
      var p, u := PieceOf(s);
      var more;
      more, rest := PiecesOf(u);
      Joins(PrintPiece(p), PrintPieces(more), rest);
      ps := [p] + more;
      assert ps[1..] == more;
    }
  }

  lemma SeparatorOf(s: string) returns (x: Separator, rest: string)
    requires s != "" && IsSeparator(s[0])
    ensures s == PrintSeparator(x) + rest && |rest| < |s| && (x == Bar ==> rest == "" || (rest[0] != '|' && rest[0] != '&'))
  {
    if s[0] == '|' && |s| > 1 && s[1] == '|' {
      x, rest := DoubleBar, s[2..];
    } else if s[0] == '|' && |s| > 1 && s[1] == '&' {
      x, rest := BarAmp, s[2..];
    } else {
      x := if s[0] == ';' then Separator.Semi else if s[0] == '\n' then Separator.NewLine else if s[0] == '&' then Amp
           else if s[0] == '(' then OpenParen else if s[0] == ')' then CloseParen else Bar;
      rest := s[1..];
    }
  }

  lemma {:induction false} CommandsOf(s: string) returns (cs: seq<Command>, last: seq<Piece>)
    ensures CommandsValid(cs, last) && PrintCommands(cs, last) == s
    decreases |s|
  {
    hide PiecesValid, PrintPieces, PrintSeparator;
    var ps, u := PiecesOf(s);
    if u == "" {
      cs, last := [], ps;
      assert PrintPieces(ps) + u == PrintPieces(ps);
    } else {
      var x, rest := SeparatorOf(u);
      var more;
      more, last := CommandsOf(rest);
      cs := [Command(ps, x)] + more;
      assert cs[1..] == more;
    }
  }

  /** What splitSegments reads from any line: the line can be written, and the segments are what it was written
      from. */
  lemma SegmentsAre(s: string) returns (cs: seq<Command>, last: seq<Piece>)
    ensures CommandsValid(cs, last) && PrintCommands(cs, last) == s && Segments(s) == SegmentsOf(cs, last)
  {
    cs, last := CommandsOf(s);
    CommandsRead(cs, last);
  }

  /** A command in parentheses ends at the parenthesis: that its output goes to the next one is lost. */
  lemma SubshellLosesPipe()
    ensures Segments("(a)|b") == [Segment("a", false), Segment("b", false)]
  {
    var a, b := [Bare('a')], [Bare('b')];
    var none: seq<Piece> := [];
    var c3 := [Command(none, Bar)];
    var c2 := [Command(a, CloseParen)] + c3;
    var c1 := [Command(none, OpenParen)] + c2;
    assert a[1..] == none && b[1..] == none && PrintPieces(a) == "a" && PrintPieces(b) == "b";
    assert c3[1..] == [] && c2[1..] == c3 && c1[1..] == c2;
    assert PrintCommands(c3, b) == "|b" && CommandsValid(c3, b);
    assert PrintCommands(c2, b) == "a)|b" && CommandsValid(c2, b);
    assert PrintCommands(c1, b) == "(a)|b" && CommandsValid(c1, b);
    CommandsRead(c1, b);
    OneLetter("a");
    OneLetter("b");
    assert SegmentsOf(c3, b) == [Segment("b", false)];
    assert SegmentsOf(c2, b) == [Segment("a", false), Segment("b", false)];
  }

  lemma OneLetter(t: string)
    requires |t| == 1 && !IsSpaceRune(t[0])
    ensures Trim(t) == t && Trim("") == ""
  {
  }
}
