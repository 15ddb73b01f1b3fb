/** Plan texts as they are nested: characters, quoted texts, and groups in parentheses or brackets. Splitting and
    closing see the top level only. */
module PlanWritten {
  import opened ByteText
  import opened PlanText
  import opened PlanExpr
  import opened PlanScan
  import opened PlanColumns

  datatype Bit = Chr(c: char) | Quote(q: char, text: string) | Group(square: bool, bits: seq<Bit>)

  function Opening(square: bool): char { if square then '[' else '(' }
  function Ending(square: bool): char { if square then ']' else ')' }

  function PrintBit(b: Bit): string
    decreases b, 0
  {
    match b
    case Chr(c) => [c]
    case Quote(q, t) => [q] + t + [q]
    case Group(square, bs) => [Opening(square)] + PrintBits(bs) + [Ending(square)]
  }

  function PrintBits(bs: seq<Bit>): string
    decreases bs, 1
  {
    if bs == [] then "" else PrintBit(bs[0]) + PrintBits(bs[1..])
  }

  /** At the top level no blank stands outside quotes; inside a group anything does. */
  predicate BitValid(b: Bit, top: bool)
    decreases b, 0
  {
    match b
    case Chr(c) => c != '\'' && c != '"' && c != '(' && c != ')' && c != '[' && c != ']' && (top ==> c != ' ')
    case Quote(q, t) => (q == '\'' || q == '"') && q !in t
    case Group(_, bs) => BitsValid(bs, false)
  }

  predicate BitsValid(bs: seq<Bit>, top: bool)
    decreases bs, 1
  {
    bs == [] || (BitValid(bs[0], top) && BitsValid(bs[1..], top))
  }

  lemma QuoteSpan(q: char, t: string, rest: string)
    requires (q == '\'' || q == '"') && q !in t
    ensures var s := [q] + t + [q] + rest; IsQuote(s[0]) && QuoteCloses(s) && QuoteLen(s) == |t| + 2 && s[|t| + 2..] == rest
  {
    var s := [q] + t + [q] + rest;
    assert s[|t| + 1] == q && forall j :: 1 <= j < |t| + 1 ==> s[j] == t[j - 1] && t[j - 1] in t;
    assert NextQuote(s, q, 1) == |t| + 1;
  }

  lemma GroupText(square: bool, t: string, u: string)
    ensures [Opening(square)] + t + [Ending(square)] + u == [Opening(square)] + (t + ([Ending(square)] + u))
  {
  }

  // ---- Brackets match ----

  lemma BalancedStep(c: char, u: string, d: nat, square: bool)
    requires !IsQuote(c) && Deeper(c, d, square) >= 0 && Balanced(u, Deeper(c, d, square), square)
    ensures Balanced([c] + u, d, square)
  {
    assert ([c] + u)[1..] == u;
  }

  lemma BalancedQuote(q: char, t: string, u: string, d: nat, square: bool)
    requires (q == '\'' || q == '"') && q !in t && Balanced(u, d, square)
    ensures Balanced([q] + t + [q] + u, d, square)
  {
    QuoteSpan(q, t, u);
    hide QuoteLen, QuoteCloses;
  }

  lemma {:induction false} BitsBalanced(bs: seq<Bit>, top: bool, d: nat, square: bool, rest: string)
    requires BitsValid(bs, top) && Balanced(rest, d, square)
    ensures Balanced(PrintBits(bs) + rest, d, square)
    decreases bs, 1
  {
    if bs == [] {
      assert PrintBits(bs) + rest == rest;
    } else {
      BitsBalanced(bs[1..], top, d, square, rest);
      BitBalanced(bs[0], top, d, square, PrintBits(bs[1..]) + rest);
      hide PrintBit;
      assert PrintBits(bs) + rest == PrintBit(bs[0]) + (PrintBits(bs[1..]) + rest);
    }
  }

  lemma {:induction false} BitBalanced(b: Bit, top: bool, d: nat, square: bool, u: string)
    requires BitValid(b, top) && Balanced(u, d, square)
    ensures Balanced(PrintBit(b) + u, d, square)
    decreases b, 0
  {
    hide Balanced, PrintBits, BitsValid;
    match b
    case Chr(c) => BalancedStep(c, u, d, square);
    case Quote(q, t) => BalancedQuote(q, t, u, d, square);
    case Group(sq, bs) =>
      var e := if sq && !square then d else d + 1;
      BalancedStep(Ending(sq), u, e, square);
      BitsBalanced(bs, false, e, square, [Ending(sq)] + u);
      BalancedStep(Opening(sq), PrintBits(bs) + ([Ending(sq)] + u), d, square);
      GroupText(sq, PrintBits(bs), u);
  }

  // ---- Nothing inside counts ----

  lemma {:induction false} BitsFree(bs: seq<Bit>, sep: string, d: nat, rest: string)
    requires IsSep(sep) && BitsValid(bs, d == 0) && TopFree(rest, sep, d)
    ensures TopFree(PrintBits(bs) + rest, sep, d)
    decreases bs, 1
  {
    if bs == [] {
      assert PrintBits(bs) + rest == rest;
    } else {
      BitsFree(bs[1..], sep, d, rest);
      BitFree(bs[0], sep, d, PrintBits(bs[1..]) + rest);
      hide PrintBit, TopFree;
      assert PrintBits(bs) + rest == PrintBit(bs[0]) + (PrintBits(bs[1..]) + rest);
    }
  }

  lemma FreeStep(c: char, u: string, sep: string, d: nat)
    requires IsSep(sep) && !IsQuote(c) && (c != ' ' || Deeper(c, d, true) > 0) && Deeper(c, d, true) >= 0
    requires TopFree(u, sep, Deeper(c, d, true))
    ensures TopFree([c] + u, sep, d)
  {
    assert ([c] + u)[1..] == u;
    if c != ' ' { NoStart([c] + u + " ", sep, 0); }
  }

  lemma FreeQuote(q: char, t: string, u: string, sep: string, d: nat)
    requires (q == '\'' || q == '"') && q !in t && TopFree(u, sep, d)
    ensures TopFree([q] + t + [q] + u, sep, d)
  {
    QuoteSpan(q, t, u);
    hide QuoteLen, QuoteCloses, StartsWith;
  }

  lemma {:induction false} BitFree(b: Bit, sep: string, d: nat, u: string)
    requires IsSep(sep) && BitValid(b, d == 0) && TopFree(u, sep, d)
    ensures TopFree(PrintBit(b) + u, sep, d)
    decreases b, 0
  {
    hide TopFree, PrintBits, BitsValid, IsSep;
    match b
    case Chr(c) => FreeStep(c, u, sep, d);
    case Quote(q, t) => FreeQuote(q, t, u, sep, d);
    case Group(sq, bs) =>
      FreeStep(Ending(sq), u, sep, d + 1);
      BitsFree(bs, sep, d + 1, [Ending(sq)] + u);
      FreeStep(Opening(sq), PrintBits(bs) + ([Ending(sq)] + u), sep, d);
      GroupText(sq, PrintBits(bs), u);
  }

  function PrintTexts(tss: seq<seq<Bit>>): seq<string> {
    seq(|tss|, k requires 0 <= k < |tss| => PrintBits(tss[k]))
  }

  /** splitTop cuts where the separator stands at the top level, and nowhere in a group or a quoted text, in
      parentheses or brackets, however deep. */
  lemma SplitsWritten(tss: seq<seq<Bit>>, sep: string)
    requires tss != [] && IsSep(sep) && forall k :: 0 <= k < |tss| ==> BitsValid(tss[k], true)
    ensures SplitTop(JoinTexts(PrintTexts(tss), sep), sep) == PrintTexts(tss)
  {
    var ts := PrintTexts(tss);
    forall k | 0 <= k < |ts| ensures Balanced(ts[k], 0, true) && TopFree(ts[k], sep, 0) {
      assert ts[k] + "" == ts[k];
      BitsBalanced(tss[k], true, 0, true, "");
      BitsFree(tss[k], sep, 0, "");
    }
    hide Balanced, TopFree;
    SplitJoin(ts, sep);
  }

  // ---- The closing parenthesis ----

  lemma {:induction false} BitsPassed(bs: seq<Bit>, d: nat, rest: string)
    requires BitsValid(bs, false) && d >= 1
    ensures Closing(PrintBits(bs) + rest, d) == Longer(Closing(rest, d), |PrintBits(bs)|)
    decreases bs, 1
  {
    hide PrintBit, Closing;
    if bs == [] {
      assert PrintBits(bs) + rest == rest;
    } else {
      BitsPassed(bs[1..], d, rest);
      BitPassed(bs[0], d, PrintBits(bs[1..]) + rest);
      assert PrintBits(bs) + rest == PrintBit(bs[0]) + (PrintBits(bs[1..]) + rest);
    }
  }

  lemma PassStep(c: char, u: string, d: nat)
    requires !IsQuote(c) && !(c == ')' && d == 1)
    ensures Closing([c] + u, d) == Longer(Closing(u, Deeper(c, d, false)), 1)
  {
    assert ([c] + u)[1..] == u;
  }

  lemma PassQuote(q: char, t: string, u: string, d: nat)
    requires (q == '\'' || q == '"') && q !in t
    ensures Closing([q] + t + [q] + u, d) == Longer(Closing(u, d), |t| + 2)
  {
    QuoteSpan(q, t, u);
    hide QuoteLen, QuoteCloses;
  }

  lemma {:induction false} BitPassed(b: Bit, d: nat, u: string)
    requires BitValid(b, false) && d >= 1
    ensures Closing(PrintBit(b) + u, d) == Longer(Closing(u, d), |PrintBit(b)|)
    decreases b, 0
  {
    hide Closing, PrintBits, BitsValid;
    match b
    case Chr(c) => PassStep(c, u, d);
    case Quote(q, t) => PassQuote(q, t, u, d);
    case Group(sq, bs) =>
      var e := if sq then d else d + 1;
      PassStep(Ending(sq), u, e);
      BitsPassed(bs, e, [Ending(sq)] + u);
      PassStep(Opening(sq), PrintBits(bs) + ([Ending(sq)] + u), d);
      GroupText(sq, PrintBits(bs), u);
  }

  /** closing finds the parenthesis that closes the first, past all groups and quoted texts in between. */
  lemma ClosesWritten(bs: seq<Bit>, rest: string)
    requires BitsValid(bs, false)
    ensures Closing("(" + PrintBits(bs) + ")" + rest, 0) == Some(|PrintBits(bs)| + 2)
  {
    BitsPassed(bs, 1, ")" + rest);
    assert Closing(")" + rest, 1) == Some(1);
    var s := "(" + PrintBits(bs) + ")" + rest;
    hide PrintBits;
    assert s[1..] == PrintBits(bs) + (")" + rest);
  }

  // ---- Names ----

  /** A name as it is written, in double quotes or bare. */
  datatype Name = Name(text: string, quoted: bool)

  predicate BareChar(c: char) {
    c == '_' || c == '$' || '0' <= c <= '9' || 'a' <= c <= 'z' || 'A' <= c <= 'Z' || c as int >= 0x80
  }

  predicate NameValid(n: Name) {
    n.quoted || (n.text != "" && !('0' <= n.text[0] <= '9') && forall i :: 0 <= i < |n.text| ==> BareChar(n.text[i]))
  }

  function PrintName(n: Name): string {
    if n.quoted then "\"" + Doubled(n.text, '"') + "\"" else n.text
  }

  function PrintNames(ns: seq<Name>): string {
    if ns == [] then "" else PrintName(ns[0]) + (if |ns| == 1 then "" else "." + PrintNames(ns[1..]))
  }

  function Texts(ns: seq<Name>): seq<string> {
    if ns == [] then [] else [ns[0].text] + Texts(ns[1..])
  }

  lemma BareNameReads(t: string, rest: string)
    requires NameValid(Name(t, false)) && (rest == "" || rest[0] == '.')
    ensures OneIdent(t + rest) == Some((t, rest))
  {
    var s := t + rest;
    assert forall j :: 0 <= j < |t| ==> s[j] == t[j] && IsIdentChar(s[j]);
    assert rest != "" ==> s[|t|] == '.';
    assert IdentRun(s, 0) == |t|;
    assert s[..|t|] == t && s[|t|..] == rest;
  }

  lemma NameReads(n: Name, rest: string)
    requires NameValid(n) && (rest == "" || rest[0] == '.')
    ensures PrintName(n) + rest != "" && OneIdent(PrintName(n) + rest) == Some((n.text, rest))
  {
    if n.quoted {
      var s, inside := PrintName(n) + rest, Doubled(n.text, '"') + "\"" + rest;
      assert s == "\"" + inside && s[1..] == inside;
      QuotedIdentReads(n.text, rest, "");
      assert "" + n.text == n.text;
    } else {
      BareNameReads(n.text, rest);
    }
  }

  lemma {:induction false} NamesFrom(ns: seq<Name>, out: seq<string>)
    requires ns != [] && forall k :: 0 <= k < |ns| ==> NameValid(ns[k])
    ensures IdentsFrom(PrintNames(ns), out) == Some(out + Texts(ns))
    decreases |ns|
  {
    hide PrintName, NameValid, OneIdent;
    var n, rest := ns[0], if |ns| == 1 then "" else "." + PrintNames(ns[1..]);
    NameReads(n, rest);
    if |ns| == 1 {
      assert Texts(ns[1..]) == [] && Texts(ns) == [n.text];
    } else {
      assert rest[1..] == PrintNames(ns[1..]) && PrintNames(ns[1..]) != "" by { NamesNotEmpty(ns[1..]); }
      NamesFrom(ns[1..], out + [n.text]);
      assert out + [n.text] + Texts(ns[1..]) == out + Texts(ns);
    }
  }

  lemma NamesNotEmpty(ns: seq<Name>)
    requires ns != [] && NameValid(ns[0])
    ensures PrintNames(ns) != ""
  {
  }

  /** identList reads names joined by dots back, bare or quoted, whatever the quoted ones hold. */
  lemma NamesRead(ns: seq<Name>)
    requires ns != [] && forall k :: 0 <= k < |ns| ==> NameValid(ns[k])
    ensures IdentsFrom(PrintNames(ns), []) == Some(Texts(ns))
  {
    NamesFrom(ns, []);
    assert [] + Texts(ns) == Texts(ns);
  }
}
