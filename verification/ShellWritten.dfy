/** Shell lines as anyone may write them: words made of bare characters, quoted texts and backslashes. Reading
    the words gives back what they were written from. */
module ShellWritten {
  import opened Shell

  // ---- What can be written ----

  /** Inside double quotes: a character, or a character after a backslash. */
  datatype Item = Plain(c: char) | Slashed(c: char)

  /** A part of a word; an open quote runs to the end of the line. */
  datatype Bit =
    | Char(c: char)
    | Escape(c: char)
    | Single(text: string)
    | Double(items: seq<Item>)
    | OpenSingle(text: string)
    | OpenDouble(items: seq<Item>)

  /** A word and the blanks before it. */
  datatype Word = Word(gap: string, bits: seq<Bit>)

  function PrintItem(x: Item): string {
    match x
    case Plain(c) => [c]
    case Slashed(c) => ['\\', c]
  }

  function PrintItems(items: seq<Item>): string {
    if items == [] then "" else PrintItem(items[0]) + PrintItems(items[1..])
  }

  function ItemsValue(items: seq<Item>): string {
    if items == [] then "" else [items[0].c] + ItemsValue(items[1..])
  }

  function PrintBit(b: Bit): string {
    match b
    case Char(c) => [c]
    case Escape(c) => ['\\', c]
    case Single(t) => "'" + t + "'"
    case Double(items) => "\"" + PrintItems(items) + "\""
    case OpenSingle(t) => "'" + t
    case OpenDouble(items) => "\"" + PrintItems(items)
  }

  function BitValue(b: Bit): string {
    match b
    case Char(c) => [c]
    case Escape(c) => [c]
    case Single(t) => t
    case Double(items) => ItemsValue(items)
    case OpenSingle(t) => t
    case OpenDouble(items) => ItemsValue(items)
  }

  function PrintBits(bs: seq<Bit>): string {
    if bs == [] then "" else PrintBit(bs[0]) + PrintBits(bs[1..])
  }

  function BitsValue(bs: seq<Bit>): string {
    if bs == [] then "" else BitValue(bs[0]) + BitsValue(bs[1..])
  }

  function PrintWritten(ws: seq<Word>, tail: string): string {
    if ws == [] then tail else ws[0].gap + (PrintBits(ws[0].bits) + PrintWritten(ws[1..], tail))
  }

  function Values(ws: seq<Word>): seq<string> {
    if ws == [] then [] else [BitsValue(ws[0].bits)] + Values(ws[1..])
  }

  // ---- When it can be written there ----

  /** A backslash before nothing stands for itself. */
  predicate ItemsValid(items: seq<Item>, last: bool) {
    forall k :: 0 <= k < |items| && items[k].Plain? ==>
      items[k].c != '"' && (items[k].c == '\\' ==> last && k == |items| - 1)
  }

  predicate BitValid(b: Bit, rest: string) {
    match b
    case Char(c) => c != ' ' && c != '\t' && c != '\'' && c != '"' && (c == '\\' ==> rest == "")
    case Escape(_) => true
    case Single(t) => '\'' !in t
    case Double(items) => ItemsValid(items, false)
    case OpenSingle(t) => '\'' !in t && rest == ""
    case OpenDouble(items) => ItemsValid(items, true) && rest == ""
  }

  predicate BitsValid(bs: seq<Bit>, rest: string) {
    bs == [] || (BitValid(bs[0], PrintBits(bs[1..]) + rest) && BitsValid(bs[1..], rest))
  }

  /** Blanks stand between words, and can stand before and after them. */
  predicate Written(ws: seq<Word>, tail: string, gapped: bool) {
    && Blank(tail)
    && (ws == [] ||
        (&& Blank(ws[0].gap) && (gapped ==> ws[0].gap != "")
         && ws[0].bits != [] && BitsValid(ws[0].bits, PrintWritten(ws[1..], tail))
         && Written(ws[1..], tail, true)))
  }

  // ---- Reading it ----

  lemma {:induction false} SingleReads(t: string, rest: string, cur: string)
    requires '\'' !in t
    ensures WordsFrom(t + "'" + rest, In('\''), cur, true) == WordsFrom(rest, Out, cur + t, true)
    ensures WordsFrom(t, In('\''), cur, true) == [cur + t]
    decreases |t|
  {
    if t == "" {
      assert (t + "'" + rest)[1..] == rest && cur + t == cur;
    } else {
      assert t[0] in t && forall c :: c in t[1..] ==> c in t;
      SingleReads(t[1..], rest, cur + [t[0]]);
      assert (t + "'" + rest)[1..] == t[1..] + "'" + rest;
      assert cur + [t[0]] + t[1..] == cur + t;
    }
  }

  /** One item inside double quotes. */
  lemma ItemReads(x: Item, u: string, cur: string)
    requires x.Plain? ==> x.c != '"' && (x.c == '\\' ==> u == "")
    ensures WordsFrom(PrintItem(x) + u, In('"'), cur, true) == WordsFrom(u, In('"'), cur + [x.c], true)
  {
    var s := PrintItem(x) + u;
    assert s[|PrintItem(x)|..] == u && s[0] == PrintItem(x)[0] && (x.Slashed? ==> s[1] == x.c);
  }

  lemma Joins(a: string, b: string, c: string)
    ensures a + (b + c) == a + b + c
  {
  }

  lemma {:induction false} DoubleReads(items: seq<Item>, rest: string, cur: string)
    requires ItemsValid(items, false)
    ensures WordsFrom(PrintItems(items) + "\"" + rest, In('"'), cur, true) == WordsFrom(rest, Out, cur + ItemsValue(items), true)
    decreases |items|
  {
    if items == [] {
      assert (PrintItems(items) + "\"" + rest)[1..] == rest && cur + "" == cur;
    } else {
      hide WordsFrom, PrintItem;
      var x, u := items[0], PrintItems(items[1..]) + "\"" + rest;
      assert PrintItems(items) + "\"" + rest == PrintItem(x) + u;
      ItemReads(x, u, cur);
      DoubleReads(items[1..], rest, cur + [x.c]);
      Joins(cur, [x.c], ItemsValue(items[1..]));
    }
  }

  lemma {:induction false} OpenDoubleReads(items: seq<Item>, cur: string)
    requires ItemsValid(items, true)
    ensures WordsFrom(PrintItems(items), In('"'), cur, true) == [cur + ItemsValue(items)]
    decreases |items|
  {
    if items == [] {
      assert cur + "" == cur;
    } else {
      var x, u := items[0], PrintItems(items[1..]);
      assert x == Plain('\\') ==> u == "";
      hide WordsFrom, PrintItem;
      ItemReads(x, u, cur);
      OpenDoubleReads(items[1..], cur + [x.c]);
      Joins(cur, [x.c], ItemsValue(items[1..]));
    }
  }

  lemma QuoteOpens(q: char, u: string, cur: string, started: bool)
    requires q == '\'' || q == '"'
    ensures WordsFrom([q] + u, Out, cur, started) == WordsFrom(u, In(q), cur, true)
  {
    assert ([q] + u)[1..] == u;
  }

  lemma CharReads(b: Bit, rest: string, cur: string, started: bool)
    requires BitValid(b, rest) && (b.Char? || b.Escape?)
    ensures WordsFrom(PrintBit(b) + rest, Out, cur, started) == WordsFrom(rest, Out, cur + [b.c], true)
  {
    var s := PrintBit(b) + rest;
    assert s[|PrintBit(b)|..] == rest && s[0] == PrintBit(b)[0] && (b.Escape? ==> s[1] == b.c);
  }

  lemma QuotedReads(q: char, body: string, rest: string, cur: string, started: bool)
    requires q == '\'' || q == '"'
    ensures WordsFrom([q] + body + [q] + rest, Out, cur, started) == WordsFrom(body + [q] + rest, In(q), cur, true)
    ensures WordsFrom([q] + body, Out, cur, started) == WordsFrom(body, In(q), cur, true)
  {
    hide WordsFrom;
    assert [q] + body + [q] + rest == [q] + (body + [q] + rest);
    QuoteOpens(q, body + [q] + rest, cur, started);
    QuoteOpens(q, body, cur, started);
  }

  lemma ClosedReads(b: Bit, rest: string, cur: string, started: bool)
    requires BitValid(b, rest) && (b.Single? || b.Double?)
    ensures WordsFrom(PrintBit(b) + rest, Out, cur, started) == WordsFrom(rest, Out, cur + BitValue(b), true)
  {
    hide WordsFrom, PrintItems, ItemsValue, ItemsValid;
    if b.Single? {
      QuotedReads('\'', b.text, rest, cur, started);
      SingleReads(b.text, rest, cur);
    } else {
      QuotedReads('"', PrintItems(b.items), rest, cur, started);
      DoubleReads(b.items, rest, cur);
    }
  }

  lemma OpenReads(b: Bit, cur: string, started: bool)
    requires BitValid(b, "") && (b.OpenSingle? || b.OpenDouble?)
    ensures WordsFrom(PrintBit(b), Out, cur, started) == [cur + BitValue(b)]
  {
    hide WordsFrom, PrintItems, ItemsValue, ItemsValid;
    if b.OpenSingle? {
      QuotedReads('\'', b.text, "", cur, started);
      SingleReads(b.text, "", cur);
    } else {
      QuotedReads('"', PrintItems(b.items), "", cur, started);
      OpenDoubleReads(b.items, cur);
    }
  }

  lemma BitReads(b: Bit, rest: string, cur: string, started: bool)
    requires BitValid(b, rest)
    ensures WordsFrom(PrintBit(b) + rest, Out, cur, started) == WordsFrom(rest, Out, cur + BitValue(b), true)
  {
    if b.Char? || b.Escape? {
      CharReads(b, rest, cur, started);
    } else if b.Single? || b.Double? {
      ClosedReads(b, rest, cur, started);
    } else {
      EndOfLine(cur + BitValue(b));
      hide WordsFrom, PrintBit, BitValue;
      OpenReads(b, cur, started);
      assert PrintBit(b) + "" == PrintBit(b);
    }
  }

  lemma EndOfLine(cur: string)
    ensures WordsFrom("", Out, cur, true) == [cur]
  {
  }

  lemma {:induction false} BitsRead(bs: seq<Bit>, rest: string, cur: string, started: bool)
    requires BitsValid(bs, rest)
    ensures WordsFrom(PrintBits(bs) + rest, Out, cur, started) == WordsFrom(rest, Out, cur + BitsValue(bs), started || bs != [])
    decreases |bs|
  {
    hide WordsFrom, PrintBit, BitValue, BitValid;
    if bs == [] {
      assert PrintBits(bs) + rest == rest && cur + "" == cur;
    } else {
      var u := PrintBits(bs[1..]) + rest;
      Joins(PrintBit(bs[0]), PrintBits(bs[1..]), rest);
      BitReads(bs[0], u, cur, started);
      BitsRead(bs[1..], rest, cur + BitValue(bs[0]), true);
      Joins(cur, BitValue(bs[0]), BitsValue(bs[1..]));
    }
  }

  /** Blanks end a word that has begun, and begin none. */
  lemma {:induction false} GapReads(gap: string, rest: string, cur: string, started: bool)
    requires Blank(gap) && (!started ==> cur == "") && (rest == "" || gap != "" || !started)
    ensures WordsFrom(gap + rest, Out, cur, started) == (if started then [cur] else []) + WordsFrom(rest, Out, "", false)
    decreases |gap|
  {
    if gap == "" {
      assert gap + rest == rest;
      assert started ==> WordsFrom("", Out, "", false) == [];
    } else {
      assert gap[0] == ' ' || gap[0] == '\t';
      assert (gap + rest)[1..] == gap[1..] + rest;
      GapReads(gap[1..], rest, "", false);
    }
  }

  lemma {:induction false} WordsRead(ws: seq<Word>, tail: string, cur: string, started: bool)
    requires Written(ws, tail, started) && (!started ==> cur == "")
    ensures WordsFrom(PrintWritten(ws, tail), Out, cur, started) == (if started then [cur] else []) + Values(ws)
    decreases |ws|
  {
    if ws == [] {
      assert tail + "" == tail;
      GapReads(tail, "", cur, started);
      assert WordsFrom("", Out, "", false) == [];
    } else {
      hide WordsFrom, PrintBits, BitsValue, BitsValid;
      var w, rest := ws[0], PrintWritten(ws[1..], tail);
      GapReads(w.gap, PrintBits(w.bits) + rest, cur, started);
      BitsRead(w.bits, rest, "", false);
      assert "" + BitsValue(w.bits) == BitsValue(w.bits);
      WordsRead(ws[1..], tail, BitsValue(w.bits), true);
    }
  }

  /** shellWords reads every written line back to what its words hold. */
  lemma WrittenReads(ws: seq<Word>, tail: string)
    requires Written(ws, tail, false)
    ensures Words(PrintWritten(ws, tail)) == Values(ws)
  {
    WordsRead(ws, tail, "", false);
  }

  // ---- Every line is a written one ----

  predicate IsBlank(c: char) { c == ' ' || c == '\t' }

  lemma {:induction false} UpTo(u: string, c: char) returns (t: string, rest: string)
    ensures c !in t && u == t + rest && (rest != "" ==> rest[0] == c)
    decreases |u|
  {
    if u == "" || u[0] == c {
      t, rest := "", u;
    } else {
      t, rest := UpTo(u[1..], c);
      t := [u[0]] + t;
    }
  }

  lemma ItemsCons(x: Item, items: seq<Item>, last: bool)
    requires ItemsValid(items, last) && (x.Plain? ==> x.c != '"' && (x.c == '\\' ==> last && items == []))
    ensures ItemsValid([x] + items, last) && PrintItems([x] + items) == PrintItem(x) + PrintItems(items)
  {
    assert ([x] + items)[1..] == items;
    assert forall k :: 1 <= k <= |items| ==> ([x] + items)[k] == items[k - 1];
  }

  /** What stands after a double quote: items to the closing quote, or to the end. */
  lemma {:induction false} ItemsOf(u: string) returns (items: seq<Item>, rest: string, closed: bool)
    ensures ItemsValid(items, !closed) && |rest| <= |u|
    ensures u == PrintItems(items) + if closed then "\"" + rest else ""
    decreases |u|
  {
    if u == "" {
      items, rest, closed := [], "", false;
    } else if u[0] == '"' {
      items, rest, closed := [], u[1..], true;
    } else {
      var n := if u[0] == '\\' && |u| > 1 then 2 else 1;
      var x := if n == 2 then Slashed(u[1]) else Plain(u[0]);
      items, rest, closed := ItemsOf(u[n..]);
      assert u == PrintItem(x) + u[n..];
      hide PrintItems, ItemsValid;
      if u[n..] == "" { NothingLeft(items, rest, closed); }
      ItemsCons(x, items, !closed);
      items := [x] + items;
    }
  }

  lemma NothingLeft(items: seq<Item>, rest: string, closed: bool)
    requires "" == PrintItems(items) + if closed then "\"" + rest else ""
    ensures items == [] && !closed
  {
  }

  lemma BitOf(s: string) returns (b: Bit, rest: string)
    requires s != "" && !IsBlank(s[0])
    ensures s == PrintBit(b) + rest && BitValid(b, rest) && |rest| < |s|
  {
    if s[0] == '\'' {
      var t, u := UpTo(s[1..], '\'');
      if u == "" {
        b, rest := OpenSingle(t), "";
        assert s == PrintBit(b) + rest;
      } else {
        b, rest := Single(t), u[1..];
        assert s == ("'" + t + "'") + rest;
      }
    } else if s[0] == '"' {
      var items, u, closed := ItemsOf(s[1..]);
      hide PrintItems, ItemsValid;
      rest := if closed then u else "";
      b := if closed then Double(items) else OpenDouble(items);
      assert s == "\"" + s[1..];
      assert s == PrintBit(b) + rest;
    } else if s[0] == '\\' && |s| > 1 {
      b, rest := Escape(s[1]), s[2..];
    } else {
      b, rest := Char(s[0]), s[1..];
    }
  }

  lemma {:induction false} BitsOf(s: string) returns (bs: seq<Bit>, rest: string)
    ensures s == PrintBits(bs) + rest && BitsValid(bs, rest) && (rest != "" ==> IsBlank(rest[0]))
    ensures s != "" && !IsBlank(s[0]) ==> bs != [] && |rest| < |s|
    decreases |s|
  {
    if s == "" || IsBlank(s[0]) {
      bs, rest := [], s;
    } else {
      hide BitValid, PrintBit;
      var b, u := BitOf(s);
      var more;
      more, rest := BitsOf(u);
      Joins(PrintBit(b), PrintBits(more), rest);
      bs := [b] + more;
      assert bs[1..] == more;
    }
  }

  lemma {:induction false} GapOf(s: string) returns (gap: string, rest: string)
    ensures Blank(gap) && s == gap + rest && (rest != "" ==> !IsBlank(rest[0])) && (s != "" && IsBlank(s[0]) ==> gap != "")
    decreases |s|
  {
    if s != "" && IsBlank(s[0]) {
      gap, rest := GapOf(s[1..]);
      gap := [s[0]] + gap;
    } else {
      gap, rest := "", s;
    }
  }

  lemma {:induction false} LineOf(s: string, gapped: bool) returns (ws: seq<Word>, tail: string)
    requires gapped ==> s == "" || IsBlank(s[0])
    ensures Written(ws, tail, gapped) && PrintWritten(ws, tail) == s
    decreases |s|
  {
    hide PrintBits, BitsValid;
    var gap, u := GapOf(s);
    if u == "" {
      ws, tail := [], gap;
    } else {
      var bs, rest := BitsOf(u);
      var more;
      more, tail := LineOf(rest, true);
      ws := [Word(gap, bs)] + more;
      assert ws[1..] == more;
    }
  }

  /** What shellWords reads from any line: the line can be written, and the words are what it was written from. */
  lemma WordsAre(s: string) returns (ws: seq<Word>, tail: string)
    ensures Written(ws, tail, false) && PrintWritten(ws, tail) == s && Words(s) == Values(ws)
  {
    ws, tail := LineOf(s, false);
    WrittenReads(ws, tail);
  }
}
