/** Commands as they are written: assignments, wrappers with their flags, runners, and scripts in quotes. What
    commandWords reads from them is the command itself. */
module CommandLines {
  import opened ByteText
  import opened Shell
  import opened ShellTheorems
  import opened CommandWords

  // ---- Names ----

  predicate NameChar(c: char) {
    c == '_' || '0' <= c <= '9' || 'a' <= c <= 'z' || 'A' <= c <= 'Z'
  }

  predicate VarName(n: string) {
    n != "" && !('0' <= n[0] <= '9') && forall i :: 0 <= i < |n| ==> NameChar(n[i])
  }

  /** An assignment is a name, an equals sign and anything. */
  lemma AssignmentIff(w: string)
    ensures IsAssignment(w) <==> exists n: string, v: string :: VarName(n) && w == n + "=" + v
  {
    if IsAssignment(w) {
      var k :| 0 < k < |w| && w[k] == '=' && IsNameTo(w, k);
      assert VarName(w[..k]) && w == w[..k] + "=" + w[k + 1..];
    }
    forall n: string, v: string | VarName(n) && w == n + "=" + v ensures IsAssignment(w) {
      assert w[|n|] == '=' && forall i :: 0 <= i < |n| ==> w[i] == n[i];
      assert IsNameTo(w, |n|);
    }
  }

  /** A dash and letters with a c among them. */
  lemma ShellFlagsIff(w: string)
    ensures IsShellFlags(w) <==>
      && |w| > 1 && w[0] == '-' && (forall i :: 1 <= i < |w| ==> 'a' <= w[i] <= 'z' || 'A' <= w[i] <= 'Z')
      && exists i :: 1 <= i < |w| && w[i] == 'c'
  {
    assert forall i :: 1 <= i < |w| ==> w[i] == w[1..][i - 1];
    if |w| > 1 && 'c' in w[1..] {
      var i :| 0 <= i < |w| - 1 && w[1..][i] == 'c';
      assert w[i + 1] == 'c';
    }
  }

  function Slashes(k: nat): string {
    seq(k, _ => '/')
  }

  lemma {:induction false} DropsSlashes(w: string, k: nat)
    requires w == "" || w[|w| - 1] != '/'
    ensures DropSlashes(w + Slashes(k)) == w
  {
    if k == 0 {
      assert w + Slashes(0) == w;
    } else {
      var s := w + Slashes(k);
      assert s[|s| - 1] == '/' && s[..|s| - 1] == w + Slashes(k - 1);
      DropsSlashes(w, k - 1);
    }
  }

  lemma {:induction false} LastPartOf(dir: string, name: string)
    requires '/' !in name && (dir == "" || dir[|dir| - 1] == '/')
    ensures LastPart(dir + name) == name
    decreases |dir|
  {
    if dir == "" {
      assert dir + name == name;
    } else {
      assert dir[|dir| - 1] in dir && (dir + name)[|dir| - 1] == '/';
      assert (dir + name)[1..] == dir[1..] + name;
      LastPartOf(dir[1..], name);
    }
  }

  /** filepath.Base: a name without slashes, whatever directory is before it and slashes after it. */
  lemma BaseOf(dir: string, name: string, k: nat)
    requires '/' !in name && name != "" && (dir == "" || dir[|dir| - 1] == '/')
    ensures Base(dir + name + Slashes(k)) == name
    ensures Base(dir + name) == name
    ensures Base("") == "." && Base(Slashes(k + 1)) == "/"
  {
    assert name[|name| - 1] in name && (dir + name)[|dir + name| - 1] == name[|name| - 1];
    DropsSlashes(dir + name, k);
    DropsSlashes(dir + name, 0);
    assert dir + name + Slashes(0) == dir + name;
    LastPartOf(dir, name);
    DropsSlashes("", k + 1);
    assert "" + Slashes(k + 1) == Slashes(k + 1);
  }

  // ---- Wrappers and runners as written ----

  predicate WrapperName(n: string) {
    || n == "sudo" || n == "env" || n == "time" || n == "nohup" || n == "exec" || n == "command" || n == "npx"
    || n == "bunx" || n == "pnpx" || n == "dotenv" || n == "doppler" || n == "op"
  }

  predicate RunnerName(n: string) {
    || n == "bundle" || n == "pnpm" || n == "yarn" || n == "poetry" || n == "pipenv" || n == "uv" || n == "pdm"
    || n == "hatch"
  }

  predicate RunnerVerb(v: string) {
    v == "exec" || v == "run" || v == "dlx"
  }

  /** The flags that take the next word with them. */
  predicate TakesValue(f: string) {
    || f == "-u" || f == "--user" || f == "-p" || f == "--project" || f == "-c" || f == "--config" || f == "-e"
  }

  /** A word that belongs to the wrapper before it. */
  predicate FlagLike(w: string) {
    (w != "" && w[0] == '-') || w == "run"
  }

  datatype Flag = Switch(f: string) | Valued(f: string, v: string)

  /** What can stand before a command. */
  datatype Prefix =
    | Assign(name: string, value: string)
    | Wrapper(dir: string, name: string, flags: seq<Flag>, ended: bool)
    | Runner(dir: string, name: string, verb: string)

  predicate FlagValid(f: Flag) {
    match f
    case Switch(f) => FlagLike(f) && f != "--" && !TakesValue(f)
    case Valued(f, _) => TakesValue(f)
  }

  function PrintFlag(f: Flag): seq<string> {
    match f
    case Switch(f) => [f]
    case Valued(f, v) => [f, v]
  }

  function PrintFlags(fs: seq<Flag>): seq<string> {
    if fs == [] then [] else PrintFlag(fs[0]) + PrintFlags(fs[1..])
  }

  function PrintPrefix(p: Prefix): seq<string> {
    match p
    case Assign(n, v) => [n + "=" + v]
    case Wrapper(dir, n, fs, ended) => [dir + n] + (PrintFlags(fs) + if ended then ["--"] else [])
    case Runner(dir, n, verb) => [dir + n, verb]
  }

  function PrintPrefixes(ps: seq<Prefix>, cmd: seq<string>): seq<string> {
    if ps == [] then cmd else PrintPrefix(ps[0]) + PrintPrefixes(ps[1..], cmd)
  }

  predicate IsDir(dir: string) {
    (dir == "" || dir[|dir| - 1] == '/') && '=' !in dir
  }

  /** A wrapper's flags end where the next word is none, or at --. */
  predicate PrefixValid(p: Prefix, rest: seq<string>) {
    match p
    case Assign(n, _) => VarName(n)
    case Wrapper(dir, n, fs, ended) =>
      && IsDir(dir) && WrapperName(n) && (forall k :: 0 <= k < |fs| ==> FlagValid(fs[k]))
      && (ended || rest == [] || !FlagLike(rest[0]))
    case Runner(dir, n, verb) => IsDir(dir) && RunnerName(n) && RunnerVerb(verb)
  }

  predicate PrefixesValid(ps: seq<Prefix>, cmd: seq<string>) {
    ps == [] || (PrefixValid(ps[0], PrintPrefixes(ps[1..], cmd)) && PrefixesValid(ps[1..], cmd))
  }

  /** A command of its own: no assignment, no wrapper, no runner with its verb. */
  predicate OwnCommand(cmd: seq<string>) {
    cmd == [] ||
      (&& !IsAssignment(cmd[0]) && !WrapperName(Base(cmd[0]))
       && !(|cmd| > 1 && RunnerName(Base(cmd[0])) && RunnerVerb(cmd[1])))
  }

  // ---- Prefixes are dropped, and nothing else ----

  lemma ListsAre(n: string)
    ensures n in WRAPPERS <==> WrapperName(n)
    ensures n in RUNNERS <==> RunnerName(n)
    ensures n in VALUE_FLAGS <==> TakesValue(n)
  {
  }

  lemma FlagLikeIs(w: string)
    ensures (StartsWith(w, "-") || w == "run") <==> FlagLike(w)
  {
    if w != "" { assert w[..1] == [w[0]]; }
  }

  lemma OneFlag(f: Flag, u: seq<string>)
    requires FlagValid(f)
    ensures DropFlags(PrintFlag(f) + u) == DropFlags(u)
  {
    var ws := PrintFlag(f) + u;
    ListsAre(f.f);
    FlagLikeIs(f.f);
    hide VALUE_FLAGS;
    assert ws[0] == f.f && ws[|PrintFlag(f)|..] == u;
    assert TakesValue(f.f) ==> FlagLike(f.f) && f.f != "--";
  }

  lemma {:induction false} FlagsDropped(fs: seq<Flag>, ended: bool, rest: seq<string>)
    requires (forall k :: 0 <= k < |fs| ==> FlagValid(fs[k])) && (ended || rest == [] || !FlagLike(rest[0]))
    ensures DropFlags(PrintFlags(fs) + (if ended then ["--"] else []) + rest) == rest
    decreases |fs|
  {
    var stop := if ended then ["--"] else [];
    if fs == [] {
      assert PrintFlags(fs) + stop + rest == stop + rest;
      FlagsEnd(ended, rest);
    } else {
      hide DropFlags, FlagValid;
      var u := PrintFlags(fs[1..]) + stop + rest;
      assert PrintFlags(fs) + stop + rest == PrintFlag(fs[0]) + u;
      OneFlag(fs[0], u);
      FlagsDropped(fs[1..], ended, rest);
    }
  }

  lemma FlagsEnd(ended: bool, rest: seq<string>)
    requires ended || rest == [] || !FlagLike(rest[0])
    ensures DropFlags((if ended then ["--"] else []) + rest) == rest
  {
    if ended {
      var ws := ["--"] + rest;
      FlagLikeIs("--");
      assert ws[0] == "--" && ws[1..] == rest;
    } else {
      assert [] + rest == rest;
      if rest != [] { FlagLikeIs(rest[0]); }
    }
  }

  lemma NamesPlain(n: string)
    requires WrapperName(n) || RunnerName(n)
    ensures n != "" && '/' !in n && '=' !in n && !(WrapperName(n) && RunnerName(n))
  {
  }

  lemma NoEquals(w: string)
    requires '=' !in w
    ensures !IsAssignment(w)
  {
  }

  /** A wrapper's or runner's word, with or without its directory. */
  lemma ToolWord(dir: string, n: string)
    requires IsDir(dir) && (WrapperName(n) || RunnerName(n))
    ensures !IsAssignment(dir + n) && Base(dir + n) == n
    ensures Base(dir + n) in WRAPPERS <==> WrapperName(n)
    ensures Base(dir + n) in RUNNERS <==> RunnerName(n)
  {
    hide IsAssignment, Base, WRAPPERS, RUNNERS, WrapperName, RunnerName;
    NamesPlain(n);
    NoEquals(dir + n);
    BaseOf(dir, n, 0);
    ListsAre(n);
  }

  lemma AssignDropped(n: string, v: string, rest: seq<string>)
    requires VarName(n)
    ensures DropWrappers([n + "=" + v] + rest) == DropWrappers(rest)
  {
    AssignmentIff(n + "=" + v);
    assert ([n + "=" + v] + rest)[1..] == rest;
    hide IsAssignment, WRAPPERS, VarName;
  }

  lemma WrapperDropped(w: string, flags: seq<string>, rest: seq<string>)
    requires !IsAssignment(w) && Base(w) in WRAPPERS && DropFlags(flags + rest) == rest
    ensures DropWrappers([w] + (flags + rest)) == DropWrappers(rest)
  {
    hide IsAssignment, Base, WRAPPERS, DropFlags;
    assert ([w] + (flags + rest))[1..] == flags + rest;
  }

  lemma RunnerDropped(w: string, verb: string, rest: seq<string>)
    requires !IsAssignment(w) && Base(w) !in WRAPPERS && Base(w) in RUNNERS && RunnerVerb(verb)
    ensures DropWrappers([w, verb] + rest) == DropWrappers(rest)
  {
    hide IsAssignment, Base, WRAPPERS, RUNNERS;
    assert ([w, verb] + rest)[2..] == rest;
  }

  lemma PrefixDropped(p: Prefix, rest: seq<string>)
    requires PrefixValid(p, rest)
    ensures DropWrappers(PrintPrefix(p) + rest) == DropWrappers(rest)
  {
    hide DropWrappers, IsAssignment, Base, WRAPPERS, RUNNERS, WrapperName, RunnerName, IsDir, VarName, FlagValid, RunnerVerb;
    match p
    case Assign(n, v) => AssignDropped(n, v, rest);
    case Wrapper(dir, n, fs, ended) =>
      ToolWord(dir, n);
      FlagsDropped(fs, ended, rest);
      var flags := PrintFlags(fs) + if ended then ["--"] else [];
      WrapperDropped(dir + n, flags, rest);
      assert [dir + n] + flags + rest == [dir + n] + (flags + rest);
    case Runner(dir, n, verb) =>
      ToolWord(dir, n);
      assert !WrapperName(n) by { NamesPlain(n); }
      RunnerDropped(dir + n, verb, rest);
  }

  lemma OwnStays(cmd: seq<string>)
    requires OwnCommand(cmd)
    ensures DropWrappers(cmd) == cmd
  {
    if cmd != [] {
      ListsAre(Base(cmd[0]));
      hide IsAssignment, Base, WRAPPERS, RUNNERS, WrapperName, RunnerName;
    }
  }

  /** What is left of a written command is the command: its prefixes are dropped with their flags and the
      flags' values, and nothing else. */
  lemma {:induction false} PrefixesDropped(ps: seq<Prefix>, cmd: seq<string>)
    requires PrefixesValid(ps, cmd) && OwnCommand(cmd)
    ensures DropWrappers(PrintPrefixes(ps, cmd)) == cmd
    decreases |ps|
  {
    if ps == [] {
      OwnStays(cmd);
    } else {
      hide DropWrappers, PrefixValid, OwnCommand, PrintPrefix;
      PrefixDropped(ps[0], PrintPrefixes(ps[1..], cmd));
      PrefixesDropped(ps[1..], cmd);
    }
  }

  // ---- Scripts ----

  predicate ShellName(n: string) {
    n == "bash" || n == "sh" || n == "zsh" || n == "dash" || n == "ash" || n == "ksh"
  }

  /** What comes after these words is a script to run. */
  predicate ScriptAfter(pre: seq<string>) {
    pre == [] ||
      var last := pre[|pre| - 1];
      || last == "-c" || last == "--command" || last == "--" || last == "exec" || last == "run"
      || (|pre| >= 2 && IsShellFlags(last) && ShellName(Base(pre[|pre| - 2])))
  }

  lemma ScriptAfterIs(pre: seq<string>)
    ensures LooksLikeCommandArg(pre) <==> ScriptAfter(pre)
  {
    hide IsShellFlags, Base;
  }

  /** What commandWords returns on a segment it returns on. */
  function Result(seg: string): seq<string>
    requires '\n' !in seg
  {
    ShortEnoughReturns(seg, |seg| + 1);
    Run(seg, |seg| + 1).value
  }

  predicate NoBlanks(ws: seq<string>) {
    forall k :: 0 <= k < |ws| ==> !HasBlank(ws[k])
  }

  lemma {:induction false} PlainExpands(ws: seq<string>, post: seq<string>, out: seq<string>, depth: nat)
    requires NoBlanks(ws) && depth > 0
    ensures Expand(ws + post, out, depth) == Expand(post, out + ws, depth)
    decreases |ws|
  {
    hide HasBlank, LooksLikeCommandArg, Run;
    if ws == [] {
      assert ws + post == post && out + ws == out;
    } else {
      assert (ws + post)[1..] == ws[1..] + post && out + [ws[0]] + ws[1..] == out + ws;
      PlainExpands(ws[1..], post, out + [ws[0]], depth);
    }
  }

  /** Words without blanks are the command. */
  lemma PlainResult(seg: string)
    requires '\n' !in seg && NoBlanks(Words(seg))
    ensures Result(seg) == DropWrappers(Words(seg))
  {
    hide DropWrappers, HasBlank;
    ShortEnoughReturns(seg, |seg| + 1);
    PlainExpands(Words(seg), [], [], |seg| + 1);
    assert Words(seg) + [] == Words(seg) && [] + Words(seg) == Words(seg);
  }

  lemma ResultIs(seg: string)
    requires '\n' !in seg
    ensures Run(seg, |seg| + 1) == Some(Result(seg))
  {
    hide Run;
    ShortEnoughReturns(seg, |seg| + 1);
  }

  lemma RunStep(seg: string, depth: nat)
    requires depth > 0 && Expand(Words(seg), [], depth).Some?
    ensures Run(seg, depth) == Some(DropWrappers(Expand(Words(seg), [], depth).value))
  {
    hide Expand, DropWrappers;
  }

  lemma ScriptIsShorter(seg: string, script: string)
    requires '\n' !in seg && script in Words(seg) && HasBlank(script)
    ensures '\n' !in script && |script| < |seg| && Run(script, |seg|) == Some(Result(script))
  {
    BlankWordIsShorter(seg, script);
    hide Run, Words, HasBlank;
    ShortEnoughReturns(script, |script| + 1);
    DepthDoesNotMatter(script, |script| + 1, |seg|);
  }

  lemma ScriptRun(seg: string, pre: seq<string>, script: string, inner: seq<string>)
    requires Words(seg) == pre + [script] && NoBlanks(pre) && HasBlank(script) && seg != "" && Run(script, |seg|) == Some(inner)
    ensures Run(seg, |seg| + 1)
         == Some(DropWrappers(pre + if inner != [] && LooksLikeCommandArg(pre) then inner else [script]))
  {
    hide DropWrappers, LooksLikeCommandArg, HasBlank, Run, Expand, Words, NoBlanks;
    PlainExpands(pre, [script], [], |seg| + 1);
    assert [] + pre == pre;
    ScriptExpands(pre, script, |seg| + 1);
    RunStep(seg, |seg| + 1);
  }

  lemma LastIsIn(pre: seq<string>, w: string)
    ensures w in pre + [w]
  {
    assert (pre + [w])[|pre|] == w;
  }

  /** A script in quotes where one is run stands for its own words, one that has none or stands elsewhere for
      itself. */
  lemma ScriptResult(seg: string, pre: seq<string>, script: string)
    requires '\n' !in seg && Words(seg) == pre + [script] && NoBlanks(pre) && HasBlank(script)
    ensures '\n' !in script && |script| < |seg|
    ensures Result(seg) == DropWrappers(pre + if ScriptAfter(pre) && Result(script) != [] then Result(script) else [script])
  {
    hide DropWrappers, LooksLikeCommandArg, ScriptAfter, HasBlank, Run, Expand, Words, NoBlanks, Result;
    LastIsIn(pre, script);
    ScriptIsShorter(seg, script);
    ResultIs(seg);
    ScriptAfterIs(pre);
    ScriptRun(seg, pre, script, Result(script));
  }

  lemma ScriptExpands(pre: seq<string>, script: string, depth: nat)
    requires depth > 1 && HasBlank(script) && Run(script, depth - 1).Some?
    ensures
      var inner := Run(script, depth - 1).value;
      Expand([script], pre, depth) == Some(pre + if inner != [] && LooksLikeCommandArg(pre) then inner else [script])
  {
    hide HasBlank, LooksLikeCommandArg, Run;
    assert [script][1..] == [];
    assert forall out: seq<string> :: Expand([], out, depth) == Some(out);
  }

  // ---- A whole line ----

  lemma {:induction false} PrefixesThen(ps: seq<Prefix>, a: seq<string>, b: seq<string>)
    ensures PrintPrefixes(ps, a + b) == PrintPrefixes(ps, a) + b
    decreases |ps|
  {
    hide PrintPrefix;
    if ps != [] { PrefixesThen(ps[1..], a, b); }
  }

  lemma {:induction false} SameFirst(ps: seq<Prefix>, a: seq<string>, b: seq<string>)
    requires a != [] && b != [] && a[0] == b[0] && PrefixesValid(ps, a)
    ensures PrefixesValid(ps, b) && PrintPrefixes(ps, a) != [] && PrintPrefixes(ps, b) != []
    ensures PrintPrefixes(ps, a)[0] == PrintPrefixes(ps, b)[0]
    decreases |ps|
  {
    if ps != [] {
      SameFirst(ps[1..], a, b);
      assert PrintPrefix(ps[0]) != [];
      hide PrintPrefix, IsDir, WrapperName, RunnerName, FlagValid, FlagLike;
    }
  }

  lemma ShIsOwn(rest: seq<string>)
    ensures OwnCommand(["sh", "-c"] + rest)
  {
    NoEquals("sh");
    BaseOf("", "sh", 0);
    assert "" + "sh" == "sh";
    hide IsAssignment, Base;
    assert (["sh", "-c"] + rest)[0] == "sh" && (["sh", "-c"] + rest)[1] == "-c";
  }

  /** Prefixes, sh -c and a quoted script, all printed with ShellQuote: what is read is sh -c and the words of the
      script. */
  lemma WrittenScript(ps: seq<Prefix>, script: string)
    requires PrefixesValid(ps, ["sh", "-c", script]) && NoBlanks(PrintPrefixes(ps, ["sh", "-c"])) && HasBlank(script)
    requires '\n' !in PrintWords(PrintPrefixes(ps, ["sh", "-c", script]))
    ensures '\n' !in script
    ensures Result(PrintWords(PrintPrefixes(ps, ["sh", "-c", script])))
         == ["sh", "-c"] + if Result(script) != [] then Result(script) else [script]
  {
    var pre := PrintPrefixes(ps, ["sh", "-c"]);
    var seg := PrintWords(PrintPrefixes(ps, ["sh", "-c", script]));
    PrefixesThen(ps, [], ["sh", "-c"]);
    PrefixesThen(ps, ["sh", "-c"], [script]);
    assert ["sh", "-c"] + [script] == ["sh", "-c", script] && [] + ["sh", "-c"] == ["sh", "-c"];
    assert pre[|pre| - 1] == "-c";
    hide PrintPrefixes, PrefixesValid, NoBlanks, HasBlank, PrintWords, Words, DropWrappers, Result;
    WordsRoundTrip(pre + [script]);
    ScriptResult(seg, pre, script);
    var inner := if Result(script) != [] then Result(script) else [script];
    PrefixesThen(ps, ["sh", "-c"], inner);
    SameFirst(ps, ["sh", "-c", script], ["sh", "-c"] + inner);
    ShIsOwn(inner);
    PrefixesDropped(ps, ["sh", "-c"] + inner);
  }
}
