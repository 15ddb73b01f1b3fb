/** commandWords: the words of a command with quoted scripts expanded in place and leading wrappers
    dropped. The code calls itself on every word that holds a blank; this module says exactly when
    that ends. */
module CommandWords {
  import opened ByteText
  import opened Shell
  import ShellReader

  /** strings.ContainsAny(w, " \t\n"). */
  predicate HasBlank(w: string) {
    ' ' in w || '\t' in w || '\n' in w
  }

  /** envAssignRE: a name and an equals sign. */
  predicate IsAssignment(w: string) {
    exists k :: 0 < k < |w| && w[k] == '=' && IsNameTo(w, k)
  }

  predicate IsNameTo(w: string, k: nat)
    requires k <= |w|
  {
    && k > 0 && !IsDigit(w[0])
    && forall i :: 0 <= i < k ==> w[i] == '_' || IsDigit(w[i]) || 'a' <= w[i] <= 'z' || 'A' <= w[i] <= 'Z'
  }

  /** shellFlagsRE: a dash and letters, one of them c. */
  predicate IsShellFlags(w: string) {
    && |w| > 1 && w[0] == '-' && 'c' in w[1..]
    && forall i :: 1 <= i < |w| ==> 'a' <= w[i] <= 'z' || 'A' <= w[i] <= 'Z'
  }

  function DropSlashes(w: string): (r: string) {
    if w != "" && w[|w| - 1] == '/' then DropSlashes(w[..|w| - 1]) else w
  }

  /** What comes after the last slash. */
  function LastPart(w: string): (r: string)
    ensures '/' !in r
  {
    if '/' in w then LastPart(w[1..]) else w
  }

  /** filepath.Base. */
  function Base(w: string): (r: string) {
    if w == "" then "."
    else
      var t := LastPart(DropSlashes(w));
      if t == "" then "/" else t
  }

  /** looksLikeCommandArg: a quoted argument after these words is a script to run. */
  predicate LooksLikeCommandArg(prev: seq<string>) {
    || prev == []
    || prev[|prev| - 1] in ["-c", "--command", "--", "exec", "run"]
    || (|prev| >= 2 && IsShellFlags(prev[|prev| - 1])
        && Base(prev[|prev| - 2]) in ["bash", "sh", "zsh", "dash", "ash", "ksh"])
  }

  // ---- Wrappers ----

  const WRAPPERS: seq<string> := ["sudo", "env", "time", "nohup", "exec", "command", "npx", "bunx", "pnpx", "dotenv", "doppler", "op"]
  const RUNNERS: seq<string> := ["bundle", "pnpm", "yarn", "poetry", "pipenv", "uv", "pdm", "hatch"]
  const VALUE_FLAGS: seq<string> := ["-u", "--user", "-p", "--project", "-c", "--config", "-e"]

  predicate StartsRunner(ws: seq<string>) {
    |ws| > 1 && Base(ws[0]) in RUNNERS && (ws[1] == "exec" || ws[1] == "run" || ws[1] == "dlx")
  }

  /** The wrapper's own flags, with their values; -- ends them. */
  function DropFlags(ws: seq<string>): (r: seq<string>)
    ensures IsSuffix(r, ws)
    decreases |ws|
  {
    if ws != [] && (StartsWith(ws[0], "-") || ws[0] == "run") then
      if ws[0] == "--" then ws[1..]
      else if ws[0] in VALUE_FLAGS && |ws| > 1 then
        SuffixTrans(DropFlags(ws[2..]), ws, 2); DropFlags(ws[2..])
      else
        SuffixTrans(DropFlags(ws[1..]), ws, 1); DropFlags(ws[1..])
    else ws
  }

  predicate IsSuffix(r: seq<string>, ws: seq<string>) {
    |r| <= |ws| && r == ws[|ws| - |r|..]
  }

  lemma SuffixTrans(r: seq<string>, ws: seq<string>, n: nat)
    requires n <= |ws| && IsSuffix(r, ws[n..])
    ensures IsSuffix(r, ws)
  {
    assert ws[n..][|ws| - n - |r|..] == ws[|ws| - |r|..];
  }

  /** Drops leading assignments and wrappers. What is left is the end of the list, and starts with
      neither. */
  function DropWrappers(ws: seq<string>): (r: seq<string>)
    ensures IsSuffix(r, ws)
    ensures r != [] ==> !IsAssignment(r[0]) && Base(r[0]) !in WRAPPERS && !StartsRunner(r)
    decreases |ws|
  {
    if ws == [] then ws
    else if IsAssignment(ws[0]) then
      SuffixTrans(DropWrappers(ws[1..]), ws, 1); DropWrappers(ws[1..])
    else if Base(ws[0]) in WRAPPERS then
      var t := DropFlags(ws[1..]);
      SuffixTrans(t, ws, 1);
      SuffixTrans(DropWrappers(t), ws, |ws| - |t|); DropWrappers(t)
    else if StartsRunner(ws) then
      SuffixTrans(DropWrappers(ws[2..]), ws, 2); DropWrappers(ws[2..])
    else ws
  }

  // ---- The recursion, cut off after `depth` calls ----

  /** commandWords with at most `depth` nested calls; None when they do not suffice. */
  function Run(seg: string, depth: nat): (r: Option<seq<string>>)
    decreases depth, 0
  {
    if depth == 0 then None
    else
      var out := Expand(Words(seg), [], depth);
      if out.None? then None else Some(DropWrappers(out.value))
  }

  /** The words still to add to `out`, each quoted script replaced by its own words where one is run. */
  function Expand(ws: seq<string>, out: seq<string>, depth: nat): (r: Option<seq<string>>)
    requires depth > 0
    decreases depth - 1, 1, |ws|
  {
    if ws == [] then Some(out)
    else if HasBlank(ws[0]) then
      var inner := Run(ws[0], depth - 1);
      if inner.None? then None
      else if inner.value != [] && LooksLikeCommandArg(out) then Expand(ws[1..], out + inner.value, depth)
      else Expand(ws[1..], out + [ws[0]], depth)
    else Expand(ws[1..], out + [ws[0]], depth)
  }

  /** commandWords returns on `seg`. */
  ghost predicate Returns(seg: string) {
    exists depth: nat :: Run(seg, depth).Some?
  }

  // ---- When it returns ----

  /** Words are never longer than the text they are read from; one as long is the text itself, without
      blanks. */
  lemma {:induction false} WordLength(s: string, m: Mode, cur: string, started: bool, w: string)
    requires w in WordsFrom(s, m, cur, started)
    ensures |w| <= |cur| + |s|
    ensures m == Out && |w| == |cur| + |s| ==> w == cur + s && ' ' !in s && '\t' !in s
    decreases |s|
  {
    if s != "" {
      var c, rest := s[0], s[1..];
      if m.In? && c == m.quote { WordLength(rest, Out, cur, started, w); }
      else if m.In? && c == '\\' && m.quote == '"' && |s| > 1 { WordLength(s[2..], m, cur + [s[1]], started, w); }
      else if m.In? { WordLength(rest, m, cur + [c], started, w); }
      else if c == '\'' || c == '"' { WordLength(rest, In(c), cur, true, w); }
      else if c == '\\' && |s| > 1 { WordLength(s[2..], Out, cur + [s[1]], true, w); }
      else if c == ' ' || c == '\t' {
        if started {
          if w in WordsFrom(rest, Out, "", false) { WordLength(rest, Out, "", false, w); }
        } else {
          WordLength(rest, Out, cur, false, w);
        }
      } else {
        WordLength(rest, Out, cur + [c], true, w);
        assert cur + [c] + rest == cur + s;
      }
    } else {
      assert cur + s == cur;
    }
  }

  /** Newlines are neither dropped nor made: the words hold one exactly when the text does. */
  lemma {:induction false} WordsKeepNewlines(s: string, m: Mode, cur: string, started: bool)
    requires cur != "" ==> started
    requires m.In? ==> started && (m.quote == '\'' || m.quote == '"')
    ensures (exists w :: w in WordsFrom(s, m, cur, started) && '\n' in w) <==> '\n' in s || '\n' in cur
    decreases |s|
  {
    if s == "" {
      assert started ==> cur in WordsFrom(s, m, cur, started);
    } else {
      var c, rest := s[0], s[1..];
      assert s == [c] + rest;
      assert |s| > 1 ==> s == [c, s[1]] + s[2..];
      if m.In? && c == m.quote { WordsKeepNewlines(rest, Out, cur, started); }
      else if m.In? && c == '\\' && m.quote == '"' && |s| > 1 { WordsKeepNewlines(s[2..], m, cur + [s[1]], started); }
      else if m.In? { WordsKeepNewlines(rest, m, cur + [c], started); }
      else if c == '\'' || c == '"' { WordsKeepNewlines(rest, In(c), cur, true); }
      else if c == '\\' && |s| > 1 { WordsKeepNewlines(s[2..], Out, cur + [s[1]], true); }
      else if c == ' ' || c == '\t' {
        if started {
          var ws := WordsFrom(rest, Out, "", false);
          assert WordsFrom(s, m, cur, started) == [cur] + ws;
          assert forall w :: w in [cur] + ws <==> w == cur || w in ws;
          WordsKeepNewlines(rest, Out, "", false);
        } else {
          WordsKeepNewlines(rest, Out, cur, false);
        }
      } else { WordsKeepNewlines(rest, Out, cur + [c], true); }
    }
  }

  /** Without newlines the recursion descends: a word with a blank is strictly shorter than its segment. */
  lemma BlankWordIsShorter(seg: string, w: string)
    requires '\n' !in seg && w in Words(seg) && HasBlank(w)
    ensures |w| < |seg| && '\n' !in w
  {
    WordLength(seg, Out, "", false, w);
    WordsKeepNewlines(seg, Out, "", false);
    assert "" + seg == seg;
  }

  /** With a newline it never ends: some word keeps the newline, and is expanded in its turn. */
  lemma {:induction false} NewlineNeverReturns(seg: string, depth: nat)
    requires '\n' in seg
    ensures Run(seg, depth).None?
    decreases depth
  {
    if depth > 0 {
      WordsKeepNewlines(seg, Out, "", false);
      var w :| w in Words(seg) && '\n' in w;
      NewlineNeverReturns(w, depth - 1);
      ExpandNeedsAll(Words(seg), [], depth, w);
    }
  }

  /** One word whose expansion does not end is enough. */
  lemma {:induction false} ExpandNeedsAll(ws: seq<string>, out: seq<string>, depth: nat, w: string)
    requires depth > 0 && w in ws && HasBlank(w) && Run(w, depth - 1).None?
    ensures Expand(ws, out, depth).None?
    decreases |ws|
  {
    if ws[0] != w {
      assert w in ws[1..];
      if HasBlank(ws[0]) {
        var inner := Run(ws[0], depth - 1);
        if inner.Some? {
          ExpandNeedsAll(ws[1..], out + (if inner.value != [] && LooksLikeCommandArg(out) then inner.value else [ws[0]]), depth, w);
        }
      } else {
        ExpandNeedsAll(ws[1..], out + [ws[0]], depth, w);
      }
    }
  }

  /** Without newlines, as many nested calls as the segment is long are enough. */
  lemma {:induction false} ShortEnoughReturns(seg: string, depth: nat)
    requires '\n' !in seg && depth > |seg|
    ensures Run(seg, depth).Some?
    decreases depth, 0
  {
    forall w | w in Words(seg) && HasBlank(w)
      ensures Run(w, depth - 1).Some?
    {
      BlankWordIsShorter(seg, w);
      ShortEnoughReturns(w, depth - 1);
    }
    ExpandEnds(Words(seg), [], depth);
  }

  lemma {:induction false} ExpandEnds(ws: seq<string>, out: seq<string>, depth: nat)
    requires depth > 0 && forall w :: w in ws && HasBlank(w) ==> Run(w, depth - 1).Some?
    ensures Expand(ws, out, depth).Some?
    decreases |ws|
  {
    if ws != [] {
      assert ws[0] in ws && forall w :: w in ws[1..] ==> w in ws;
      if HasBlank(ws[0]) {
        var inner := Run(ws[0], depth - 1).value;
        ExpandEnds(ws[1..], out + (if inner != [] && LooksLikeCommandArg(out) then inner else [ws[0]]), depth);
      } else {
        ExpandEnds(ws[1..], out + [ws[0]], depth);
      }
    }
  }

  /** commandWords returns exactly on segments without a newline. */
  lemma ReturnsIffNoNewline(seg: string)
    ensures Returns(seg) <==> '\n' !in seg
  {
    if '\n' in seg {
      forall depth: nat ensures Run(seg, depth).None? { NewlineNeverReturns(seg, depth); }
    } else {
      ShortEnoughReturns(seg, |seg| + 1);
    }
  }

  /** The smallest loop: a quoted word of two lines is its own only word. */
  lemma NewlineLoops()
    ensures Words("a\nb") == ["a\nb"] && HasBlank("a\nb") && !Returns("a\nb")
  {
    var s := "a\nb";
    assert s[1..] == "\nb" && "\nb"[1..] == "b" && "b"[1..] == "";
    assert WordsFrom("", Out, "a\nb", true) == ["a\nb"];
    assert "" + ['a'] == "a" && "a" + ['\n'] == "a\n" && "a\n" + ['b'] == "a\nb";
    assert WordsFrom("b", Out, "a\n", true) == ["a\nb"];
    assert WordsFrom("\nb", Out, "a", true) == ["a\nb"];
    assert s[1] == '\n';
    ReturnsIffNoNewline(s);
  }

  // ---- The code ----

  /** The dropping loop. */
  method DropLeading(words: seq<string>) returns (out: seq<string>)
    ensures out == DropWrappers(words)
  {
    out := words;
    while out != []
      invariant DropWrappers(out) == DropWrappers(words)
      decreases |out|
    {
      var w := out[0];
      if IsAssignment(w) {
        out := out[1..];
      } else if Base(w) in WRAPPERS {
        out := out[1..];
        ghost var flags := DropFlags(out);
        var done := false;
        while !done && out != [] && (StartsWith(out[0], "-") || out[0] == "run")
          invariant if done then out == flags else DropFlags(out) == flags
          decreases !done, |out|
        {
          if out[0] == "--" {
            out, done := out[1..], true;
          } else {
            if out[0] in VALUE_FLAGS && |out| > 1 {
              out := out[1..];
            }
            out := out[1..];
          }
        }
        assert out == flags;
      } else if StartsRunner(out) {
        out := out[2..];
      } else {
        return;
      }
    }
  }

  /** commandWords, on the segments it returns on. */
  method ReadCommand(seg: string) returns (out: seq<string>)
    requires '\n' !in seg
    ensures Run(seg, |seg| + 1) == Some(out)
    decreases |seg|
  {
    var words := ShellReader.ShellWords(seg);
    out := [];
    var i := 0;
    ShortEnoughReturns(seg, |seg| + 1);
    while i < |words|
      invariant 0 <= i <= |words|
      invariant Expand(words[i..], out, |seg| + 1) == Expand(words, [], |seg| + 1)
    {
      var w := words[i];
      ghost var rest := words[i..];
      assert rest[0] == w && rest[1..] == words[i + 1..];
      if HasBlank(w) {
        BlankWordIsShorter(seg, w);
        var inner := ReadCommand(w);
        DepthDoesNotMatter(w, |w| + 1, |seg|);
        if |inner| > 0 && LooksLikeCommandArg(out) {
          out := out + inner;
        } else {
          out := out + [w];
        }
      } else {
        out := out + [w];
      }
      i := i + 1;
    }
    out := DropLeading(out);
  }

  /** More depth than needed changes nothing. */
  lemma {:induction false} DepthDoesNotMatter(seg: string, d: nat, e: nat)
    requires d <= e && Run(seg, d).Some?
    ensures Run(seg, e) == Run(seg, d)
    decreases d, 0
  {
    ExpandDepth(Words(seg), [], d, e);
  }

  lemma {:induction false} ExpandDepth(ws: seq<string>, out: seq<string>, d: nat, e: nat)
    requires 0 < d <= e && Expand(ws, out, d).Some?
    ensures Expand(ws, out, e) == Expand(ws, out, d)
    decreases d - 1, 1, |ws|
  {
    hide LooksLikeCommandArg, HasBlank, Run;
    if ws != [] {
      var out' := out + [ws[0]];
      if HasBlank(ws[0]) {
        DepthDoesNotMatter(ws[0], d - 1, e - 1);
        var inner := Run(ws[0], d - 1).value;
        if inner != [] && LooksLikeCommandArg(out) {
          out' := out + inner;
        }
      }
      assert Expand(ws, out, d) == Expand(ws[1..], out', d);
      ExpandDepth(ws[1..], out', d, e);
      assert Expand(ws, out, e) == Expand(ws[1..], out', e);
    }
  }
}
