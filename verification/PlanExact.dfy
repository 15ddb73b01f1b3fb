/** Exactly when a comparison is read soundly, and the texts on which it is not. */
module PlanExact {
  import opened ByteText
  import opened PlanText
  import opened PlanExpr
  import opened PlanScan
  import opened PlanColumns
  import opened PlanReading
  import opened PlanMeaning

  // ---- A world in which whatever varies with the row holds what its columns hold ----

  function FirstValue(vs: seq<Value>): Value {
    if vs == [] then Null else if vs[0] != Null then vs[0] else FirstValue(vs[1..])
  }

  /** Columns of other tables are null, a computed operand is its first value that is not, a sub-select is a
      column of the row, and nothing is below anything but itself. */
  const MIRROR := World((_, _) => Null, (_, vs) => FirstValue(vs), (_, row: Row) => row(""), (_, _) => false, (a, b) => a == b)

  /** A row with one value in all its columns. */
  function Uniform(id: int): Row {
    _ => Other(id)
  }

  lemma {:induction false} FirstOfAll(ps: seq<Piece>, alias: string, id: int, k: nat)
    requires k < |ps| && (ps[k].Sub? || (ps[k].Ref? && ps[k].c.qual.name == alias))
    ensures FirstValue(LookupAll(ps, alias, Uniform(id), MIRROR)) == Other(id)
    decreases |ps|
  {
    var rest := LookupAll(ps[1..], alias, Uniform(id), MIRROR);
    if ps[0].Ref? || ps[0].Sub? {
      var v := if ps[0].Ref? then Lookup(ps[0].c, alias, Uniform(id), MIRROR) else Other(id);
      assert LookupAll(ps, alias, Uniform(id), MIRROR) == [v] + rest;
      assert ([v] + rest)[1..] == rest;
    } else {
      assert LookupAll(ps, alias, Uniform(id), MIRROR) == rest;
    }
    if k > 0 {
      FirstOfAll(ps[1..], alias, id, k - 1);
    }
  }

  lemma VaryingMirrors(o: Operand, alias: string, id: int)
    requires Varies(o, alias)
    ensures Eval(o, alias, Uniform(id), MIRROR) == Other(id)
  {
    if o.Computed? {
      var k :| 0 <= k < |o.pieces| && (o.pieces[k].Sub? || (o.pieces[k].Ref? && o.pieces[k].c.qual.name == alias));
      FirstOfAll(o.pieces, alias, id, k);
    }
  }

  lemma {:induction false} BoundIds(vs: set<Value>) returns (b: int)
    ensures forall v :: v in vs && v.Other? ==> v.id < b
    decreases |vs|
  {
    b := 0;
    if vs != {} {
      var v :| v in vs;
      b := BoundIds(vs - {v});
      if v.Other? && v.id >= b { b := v.id + 1; }
      forall x | x in vs && x.Other? ensures x.id < b {
        if x != v { assert x in vs - {v}; }
      }
    }
  }

  /** True of every uniform row. */
  ghost predicate AnyValue(e: Expr, alias: string) {
    forall id: int :: IsTrue(e, alias, Uniform(id), MIRROR)
  }

  lemma NotAmong(e: Expr, alias: string, col: string, vs: set<Value>)
    requires AnyValue(e, alias)
    ensures !AmongValues(e, alias, col, vs, MIRROR)
  {
    hide IsTrue;
    var b := BoundIds(vs);
    assert IsTrue(e, alias, Uniform(b), MIRROR) && Uniform(b)(col) !in vs;
  }

  lemma NotOneSided(e: Expr, alias: string, col: string, op: nat, v: Value, left: bool)
    requires AnyValue(e, alias)
    ensures !OneSided(e, alias, col, op, v, left, MIRROR)
  {
    hide IsTrue;
    var row := Uniform(if v == Other(0) then 1 else 0);
    assert IsTrue(e, alias, row, MIRROR) && row(col) != v;
  }

  lemma AnyValueConfinesNot(e: Expr, alias: string, p: Pred)
    requires AnyValue(e, alias) && (p.kind == Eq || p.kind == Range)
    ensures !Confines(e, alias, p, MIRROR)
  {
    hide AnyValue, AmongValues, OneSided;
    var col := p.col.col;
    forall vs: set<Value> ensures !AmongValues(e, alias, col, vs, MIRROR) { NotAmong(e, alias, col, vs); }
    forall op': nat, v: Value, left: bool ensures !OneSided(e, alias, col, op', v, left, MIRROR) {
      NotOneSided(e, alias, col, op', v, left);
    }
  }

  /** Two sides that both vary are equal in every uniform row. */
  lemma VaryingIsAny(op: nat, l: Operand, r: Operand, alias: string)
    requires op < |OPS| && Varies(l, alias) && Varies(r, alias)
    ensures AnyValue(Compare(op, l, r), alias)
  {
    forall id: int ensures IsTrue(Compare(op, l, r), alias, Uniform(id), MIRROR) {
      VaryingMirrors(l, alias, id);
      VaryingMirrors(r, alias, id);
    }
  }

  // ---- The exact condition ----

  lemma OnTableVaries(o: Operand, alias: string)
    requires OnTable(o, alias)
    ensures Varies(o, alias)
  {
  }

  /** A comparison that is not guarded gives a predicate on a side, and the other side varies. */
  lemma UnguardedPred(op: nat, l: Operand, r: Operand, alias: string) returns (p: Pred)
    requires op < |OPS| && ValidOperand(l) && ValidOperand(r) && !Guarded(l, r, alias)
    ensures ComparePreds(op, l, r, alias) == [p] && (p.kind == Eq || p.kind == Range)
    ensures Varies(l, alias) && Varies(r, alias)
  {
    hide Mentions, PrintOperand, ValidComputed, ValidCol;
    var kind := if op == 0 then Eq else Range;
    if OnTable(l, alias) && Varies(r, alias) && !Mentions(PrintOperand(r), alias) {
      OnTableVaries(l, alias);
      p := Pred(ColumnOf(l).value, kind, None);
    } else {
      OnTableVaries(r, alias);
      p := Pred(ColumnOf(r).value, kind, None);
    }
  }

  /** A comparison of any two operands is read soundly if and only if it is guarded: whatever is compared with
      a column of the table and varies from row to row is seen by mentions. */
  lemma CompareSoundIff(op: nat, l: Operand, r: Operand, alias: string)
    requires op < |OPS| && ValidOperand(l) && ValidOperand(r)
    ensures ReadSoundly(Compare(op, l, r), alias) <==> Guarded(l, r, alias)
  {
    hide Conditions, Print, Guarded, ValidOperand, ComparePreds, Confines;
    var e := Compare(op, l, r);
    if Guarded(l, r, alias) {
      ConditionsSound(e, alias);
    } else {
      var p := UnguardedPred(op, l, r, alias);
      ConditionsRead(e, alias);
      assert p in Conditions(Print(e), alias);
      VaryingIsAny(op, l, r, alias);
      AnyValueConfinesNot(e, alias, p);
    }
  }

  /** No conjunction, at any depth. */
  predicate AndFree(e: Expr)
    decreases e
  {
    match e
    case And(_) => false
    case Or(es) => forall x :: x in es ==> AndFree(x)
    case _ => true
  }

  /** One comparison that is not guarded makes every disjunction around it true of any value. */
  lemma {:induction false} UnseenIsAny(e: Expr, alias: string)
    requires Valid(e) && AndFree(e) && !Seen(e, alias)
    ensures AnyValue(e, alias) && (e.Or? || e.Compare?)
    decreases e
  {
    if e.Or? {
      var x :| x in e.es && !Seen(x, alias);
      UnseenIsAny(x, alias);
      forall id: int ensures IsTrue(e, alias, Uniform(id), MIRROR) {
        assert IsTrue(x, alias, Uniform(id), MIRROR);
      }
    } else {
      var _ := UnguardedPred(e.op, e.left, e.right, alias);
      VaryingIsAny(e.op, e.left, e.right, alias);
    }
  }

  /** A disjunction of any depth is read soundly if and only if nothing is read from it or all its comparisons
      are guarded. */
  lemma DisjunctionSoundIff(e: Expr, alias: string)
    requires Valid(e) && AndFree(e)
    ensures ReadSoundly(e, alias) <==> Conditions(Print(e), alias) == [] || Seen(e, alias)
  {
    hide Conditions, Print, Confines, AnyValue, Seen;
    if Seen(e, alias) {
      ConditionsSound(e, alias);
    } else if Conditions(Print(e), alias) != [] {
      var p := Conditions(Print(e), alias)[0];
      ConditionsRead(e, alias);
      UnseenIsAny(e, alias);
      assert p.kind == Eq || p.kind == Range by { hide Mentions, PrintOperand, BranchColumn, Valid; UnseenKind(e, alias, p); }
      AnyValueConfinesNot(e, alias, p);
    }
  }

  lemma UnseenKind(e: Expr, alias: string, p: Pred)
    requires Valid(e) && !Seen(e, alias) && p in Preds(e, alias) && (e.Or? || e.Compare?)
    ensures p.kind == Eq || p.kind == Range
  {
    if e.Compare? {
      var q := UnguardedPred(e.op, e.left, e.right, alias);
      hide Guarded, Mentions, PrintOperand, ValidOperand;
      assert Preds(e, alias) == [q];
    }
  }

  // ---- The signs as they are spelled ----

  /** How each comparison is printed, and when it holds of two values that are not null. */
  lemma SignsSpelled(l: Operand, r: Operand, a: Value, b: Value, w: World)
    requires ValidOperand(l) && ValidOperand(r) && a != Null && b != Null
    ensures
      var (s, t) := (PrintOperand(l), PrintOperand(r));
      && |OPS| == 5
      && Inner(Compare(0, l, r)) == s + " = " + t && (Holds(0, a, b, w) <==> a == b)
      && Inner(Compare(1, l, r)) == s + " <= " + t && (Holds(1, a, b, w) <==> a == b || w.less(a, b))
      && Inner(Compare(2, l, r)) == s + " >= " + t && (Holds(2, a, b, w) <==> a == b || w.less(b, a))
      && Inner(Compare(3, l, r)) == s + " < " + t && (Holds(3, a, b, w) <==> w.less(a, b))
      && Inner(Compare(4, l, r)) == s + " > " + t && (Holds(4, a, b, w) <==> w.less(b, a))
  {
    hide PrintOperand, ValidComputed, ValidCol;
  }

  lemma CastsSpelled(c: Col)
    requires ValidCol(c)
    ensures
      var s := "(" + PrintCol(c) + ")";
      && |CASTS| == 4
      && PrintOperand(CastColumn(c, 0)) == s + "::text" && PrintOperand(CastColumn(c, 1)) == s + "::bpchar"
      && PrintOperand(CastColumn(c, 2)) == s + "::character varying" && PrintOperand(CastColumn(c, 3)) == s + "::varchar"
  {
    hide PrintCol, ValidCol;
  }

  // ---- Where it is not ----

  /** Something in parentheses that reads on after a blank is an operand of its own. */
  lemma ParenOperand(a: string, v: string)
    requires a != "" && !IsSpaceByte(a[0]) && v != "" && !IsSpaceByte(v[|v| - 1]) && v[|v| - 1] != ')'
    requires v[|v| - 1] != 't' && v[|v| - 1] != 'r' && v[|v| - 1] != 'g'
    requires forall square :: Balanced(a, 0, square) && Balanced(" " + v, 0, square)
    ensures
      var t := "(" + (a + (" " + v)) + ")";
      Clean(t) && Standalone(t) && PlainCol(t).None?
  {
    var s := a + (" " + v);
    BalancedConcat(a, 0, " " + v, true);
    BalancedConcat(a, 0, " " + v, false);
    NotWhole(a, " " + v);
    assert s[0] == a[0] && s[|s| - 1] == v[|v| - 1];
    InnerText(s);
    UnwrapOfTrim("(" + s + ")");
    NoCastEnd(s, 0);
    MarkReadsNot(a, v);
  }

  lemma {:induction false} NoCastEnd(s: string, k: nat)
    requires k <= |CASTS| && s != "" && s[|s| - 1] != 't' && s[|s| - 1] != 'r' && s[|s| - 1] != 'g'
    ensures DropCast(s, k) == s
    decreases |CASTS| - k
  {
    if k < |CASTS| {
      var cast := CASTS[k];
      assert cast[|cast| - 1] == 't' || cast[|cast| - 1] == 'r' || cast[|cast| - 1] == 'g';
      NoEnd(s, cast, |cast| - 1);
      NoCastEnd(s, k + 1);
    }
  }

  lemma {:induction false} NoDotUnseen(s: string, i: nat, alias: string)
    requires i <= |s| && '\'' !in s && '.' !in s
    ensures !MentionsFrom(s, i, alias)
    decreases |s| - i
  {
    if i < |s| {
      var m, n := alias + ".", "\"" + alias + "\".";
      NotAt(s, i, m);
      NotAt(s, i, n);
      hide At;
      assert s[i] in s;
      NoDotUnseen(s, i + 1, alias);
    }
  }

  /** What is taken for a mention is one: the table's name and a dot stand there, bare or in double quotes, and no
      longer name ends with them. */
  lemma {:induction false} MentionStands(s: string, i: nat, alias: string) returns (p: nat)
    requires MentionsFrom(s, i, alias)
    ensures i <= p < |s| && (At(s, p, alias + ".") || At(s, p, "\"" + alias + "\".")) && (p == 0 || !IsIdentByte(s[p - 1]))
    decreases |s| - i
  {
    hide At;
    if s[i] == '\'' {
      p := MentionStands(s, NextQuote(s, '\'', i + 1) + 1, alias);
    } else if (i == 0 || !IsIdentByte(s[i - 1])) && (At(s, i, alias + ".") || At(s, i, "\"" + alias + "\".")) {
      p := i;
    } else {
      p := MentionStands(s, i + 1, alias);
    }
  }

  lemma NotAt(s: string, i: nat, m: string)
    requires m != "" && m[|m| - 1] !in s
    ensures !At(s, i, m)
  {
    if i + |m| <= |s| {
      assert s[i..i + |m|][|m| - 1] == s[i + |m| - 1];
    }
  }

  lemma SubOperand(t: string, id: nat)
    requires Clean(t) && Standalone(t) && PlainCol(t).None? && '\'' !in t && '"' !in t
    ensures
      var o := Computed(0, [Sub(t, id)]);
      ValidOperand(o) && PrintOperand(o) == t && HasSub(o)
  {
    hide Clean, Standalone, PlainCol;
    var ps := [Sub(t, id)];
    assert ps[1..] == [] && PrintPieces(ps) == t + PrintPieces([]);
    assert t + "" == t;
    assert ps[0].Sub?;
  }

  const SUB_PLAN: string := "(" + ("SubPlan" + (" " + "1")) + ")"

  lemma SubPlanBalanced()
    ensures forall square :: Balanced("SubPlan", 0, square) && Balanced(" " + "1", 0, square)
  {
    WordBalanced("SubPlan");
    WordBalanced(" " + "1");
  }

  lemma SubPlanOperand()
    ensures Clean(SUB_PLAN) && Standalone(SUB_PLAN) && PlainCol(SUB_PLAN).None?
  {
    hide Clean, Standalone, PlainCol, Balanced;
    SubPlanBalanced();
    ParenOperand("SubPlan", "1");
  }

  lemma SubPlanUnseen()
    ensures !Mentions(SUB_PLAN, "o") && '\'' !in SUB_PLAN && '"' !in SUB_PLAN
  {
    hide MentionsFrom;
    NoDotUnseen(SUB_PLAN, 0, "o");
  }

  lemma TotalPrinted()
    ensures var c := Col(Ident("o", true), Ident("total", true)); PrintCol(c) == "o.total" && ValidCol(c)
  {
  }

  /** o.total = (SubPlan 1): the sub-select has a value for each row, and the text names none of its columns. */
  lemma SubPlanUnsound()
    ensures
      var e := Compare(0, Column(Col(Ident("o", true), Ident("total", true))), Computed(0, [Sub(SUB_PLAN, 1)]));
      Valid(e) && Print(e) == "(" + ("o.total" + " = " + SUB_PLAN) + ")" && !ReadSoundly(e, "o")
  {
    var c := Col(Ident("o", true), Ident("total", true));
    hide ValidComputed, ValidCol, Mentions, ReadSoundly, PrintCol, HasSub, Clean, Standalone, PlainCol;
    hide SUB_PLAN;
    TotalPrinted();
    SubPlanOperand();
    SubPlanUnseen();
    SubOperand(SUB_PLAN, 1);
    CompareSoundIff(0, Column(c), Computed(0, [Sub(SUB_PLAN, 1)]), "o");
  }

  lemma WordBalanced(w: string)
    requires forall i :: 0 <= i < |w| ==> IsWordByte(w[i]) || w[i] == ' '
    ensures forall square :: Balanced(w, 0, square)
  {
    assert w + "" == w;
    BalancedWord(w, "", true);
    BalancedWord(w, "", false);
  }

  // An apostrophe in a quoted name opens a literal that hides what follows.

  /** Nothing is seen before an apostrophe, and nothing after one that no other follows. */
  lemma {:induction false} HiddenAfter(s: string, i: nat, n: nat, alias: string)
    requires i <= n < |s| && s[n] == '\'' && (forall j :: n < j < |s| ==> s[j] != '\'')
    requires alias != "" && forall j :: i <= j < n ==> s[j] != alias[0] && s[j] != '\'' && (s[j] != '"' || s[j + 1] != alias[0])
    ensures !MentionsFrom(s, i, alias)
    decreases n - i
  {
    if i < n {
      HiddenAfter(s, i + 1, n, alias);
      var m, q := alias + ".", "\"" + alias + "\".";
      OtherStart(s, i, m, 0);
      OtherStart(s, i, q, if s[i] == '"' then 1 else 0);
    } else {
      assert NextQuote(s, '\'', n + 1) == |s|;
    }
  }

  lemma OtherStart(s: string, i: nat, m: string, k: nat)
    requires k < |m| && i + k < |s| && s[i + k] != m[k]
    ensures !At(s, i, m)
  {
    if i + |m| <= |s| {
      assert s[i..i + |m|][k] == s[i + k];
    }
  }

  const ITS := Col(Ident("b", true), Ident("it's", false))
  const ITS_TEXT: string := "b" + "." + ("\"" + "it's" + "\"")
  const AY := Col(Ident("a", true), Ident("y", true))
  const SUM := Computed(0, [Raw("("), Ref(ITS), Raw(" + "), Ref(AY), Raw(")")])
  const SUM_TEXT: string := "(" + (ITS_TEXT + (" " + "+ a.y")) + ")"

  lemma ItsPrinted()
    ensures PrintCol(ITS) == ITS_TEXT
  {
    DoubledPlain("it's", '"');
    hide Doubled;
  }

  lemma AyPrinted()
    ensures PrintCol(AY) == "a.y"
  {
  }

  lemma ColsValid()
    ensures ValidCol(ITS) && ValidCol(AY)
  {
  }

  lemma SumPrinted()
    ensures PrintOperand(SUM) == SUM_TEXT
  {
    hide PrintCol, ITS, AY, ITS_TEXT;
    ItsPrinted();
    AyPrinted();
    var ps := SUM.pieces;
    assert ps[1..][1..][1..][1..] == [Raw(")")];
    assert ps[1..][1..][1..] == [Ref(AY), Raw(")")];
    assert ps[1..][1..] == [Raw(" + "), Ref(AY), Raw(")")];
    assert PrintPieces([Raw(")")]) == ")";
    assert PrintPieces([Ref(AY), Raw(")")]) == "a.y" + ")";
    assert PrintPieces(ps[1..][1..]) == " + " + ("a.y" + ")");
    assert PrintPieces(ps[1..]) == ITS_TEXT + (" + " + ("a.y" + ")"));
    assert PrintPieces(ps) == "(" + (ITS_TEXT + (" + " + ("a.y" + ")")));
    assert " + " + ("a.y" + ")") == (" " + "+ a.y") + ")";
  }

  lemma SumReads()
    ensures Clean(SUM_TEXT) && Standalone(SUM_TEXT) && PlainCol(SUM_TEXT).None?
  {
    hide Clean, Standalone, PlainCol, Balanced;
    SumBalanced();
    ParenOperand(ITS_TEXT, "+ a.y");
  }

  lemma SumBalanced()
    ensures forall square :: Balanced(ITS_TEXT, 0, square) && Balanced(" " + "+ a.y", 0, square)
  {
    hide Balanced, PrintCol, ValidCol, ITS_TEXT, ITS;
    ItsPrinted();
    ColsValid();
    ColBalanced(ITS, true);
    ColBalanced(ITS, false);
    WordBalanced(" " + "+ a.y");
  }

  lemma SumUnseen()
    ensures !Mentions(SUM_TEXT, "a")
  {
    HiddenAfter(SUM_TEXT, 0, 6, "a");
  }

  lemma SumValid()
    ensures ValidOperand(SUM) && Varies(SUM, "a")
  {
    hide Clean, Standalone, PlainCol, PrintCol, ValidCol, SUM_TEXT, EndsPlain, PrintPieces;
    ColsValid();
    SumPrinted();
    SumReads();
    var ps := SUM.pieces;
    assert ps[3].Ref? && ps[3].c.qual.name == "a";
    assert EndsPlain(PrintPieces(ps[..1])) by { RefFollows(ps, 0); }
    assert EndsPlain(PrintPieces(ps[..3])) by { RefFollows(ps, 2); }
    forall k | 0 < k < |ps| && ps[k].Ref? ensures EndsPlain(PrintPieces(ps[..k])) {
      assert k == 1 || k == 3;
    }
  }

  /** What follows text that ends plainly starts a name. */
  lemma RefFollows(ps: seq<Piece>, k: nat)
    requires k < |ps| && ps[k].Raw? && ps[k].text != "" && !IsIdentByte(ps[k].text[|ps[k].text| - 1])
    ensures EndsPlain(PrintPieces(ps[..k + 1]))
  {
    hide PrintPieces, IsIdentByte;
    PiecesSplit(ps, k);
  }

  /** a.x = (b."it's" + a.y): the apostrophe hides a.y, and a column of the table compared with another is taken
      for an equality with a value. */
  lemma ApostropheUnsound()
    ensures
      var e := Compare(0, Column(Col(Ident("a", true), Ident("x", true))), SUM);
      Valid(e) && Print(e) == "(" + ("a.x" + " = " + SUM_TEXT) + ")" && !ReadSoundly(e, "a")
  {
    var c := Col(Ident("a", true), Ident("x", true));
    assert PrintCol(c) == "a.x" && ValidCol(c);
    hide ValidComputed, ValidCol, Mentions, ReadSoundly, PrintCol, Varies, SUM, SUM_TEXT;
    SumValid();
    SumPrinted();
    SumUnseen();
    CompareSoundIff(0, Column(c), SUM, "a");
  }

  // A double quote in the table's name is doubled in print, and mentions looks for it as it is.

  const QUOTED: string := "a\""

  function QuotedCol(name: string): Col {
    Col(Ident(QUOTED, false), Ident(name, true))
  }

  lemma QuotedColUnseen()
    ensures ValidCol(QuotedCol("y")) && !Mentions(PrintCol(QuotedCol("y")), QUOTED)
  {
    var y, alias := QuotedCol("y"), QUOTED;
    assert alias[1..] == "\"" && "\""[1..] == "";
    assert Doubled("\"", '"') == "\"\"";
    assert Doubled(alias, '"') == "a\"\"";
    var s := PrintCol(y);
    assert s == "\"a\"\"\".y";
    hide Doubled, PrintCol;
    var m, n := alias + ".", "\"" + alias + "\".";
    assert m == "a\"." && n == "\"a\"\".";
    forall i: nat | i < |s| ensures !At(s, i, m) && !At(s, i, n) {
      if i + 3 <= |s| { assert s[i..i + 3][0] == s[i] && s[i..i + 3][2] == s[i + 2]; }
      if i + 5 <= |s| { assert s[i..i + 5][1] == s[i + 1] && s[i..i + 5][4] == s[i + 4]; }
    }
    NotMentioned(s, 0, alias);
  }

  lemma {:induction false} NotMentioned(s: string, i: nat, alias: string)
    requires i <= |s| && '\'' !in s
    requires forall j: nat :: j < |s| ==> !At(s, j, alias + ".") && !At(s, j, "\"" + alias + "\".")
    ensures !MentionsFrom(s, i, alias)
    decreases |s| - i
  {
    hide At;
    if i < |s| {
      assert s[i] in s;
      NotMentioned(s, i + 1, alias);
    }
  }

  /** A table named a": its x = y is taken for an equality with a value. */
  lemma QuotedNameUnsound()
    ensures
      var e := Compare(0, Column(QuotedCol("x")), Column(QuotedCol("y")));
      Valid(e) && !ReadSoundly(e, QUOTED)
  {
    assert ValidCol(QuotedCol("x"));
    hide ValidCol, Mentions, ReadSoundly, PrintCol, QUOTED;
    QuotedColUnseen();
    CompareSoundIff(0, Column(QuotedCol("x")), Column(QuotedCol("y")), QUOTED);
  }

  // ---- What is read, form by form ----

  lemma {:induction false} ConjunctIsRead(es: seq<Expr>, alias: string, k: nat, p: Pred)
    requires (forall x :: x in es ==> Valid(x)) && k < |es| && p in PartPreds(es[k], alias)
    ensures p in ConjunctPreds(es, alias)
    decreases |es|
  {
    hide Valid, PartPreds;
    if k > 0 { ConjunctIsRead(es[1..], alias, k - 1, p); }
  }

  /** An equality or a range with something that does not name the table, a join, a null test or a flag of a
      column of the table is among what is read. */
  predicate FormRead(x: Expr, alias: string, ps: seq<Pred>)
    requires Valid(x)
  {
    match x
    case Compare(op, l, r) =>
      && (OnTable(l, alias) && !Mentions(PrintOperand(r), alias) && ColumnOf(r).None? ==>
            Pred(ColumnOf(l).value, if op == 0 then Eq else Range, None) in ps)
      && (OnTable(r, alias) && !Mentions(PrintOperand(l), alias) && ColumnOf(l).None? ==>
            Pred(ColumnOf(r).value, if op == 0 then Eq else Range, None) in ps)
      && (op == 0 && OnTable(l, alias) && ColumnOf(r).Some? && !OnTable(r, alias) ==>
            Pred(ColumnOf(l).value, JoinEq, ColumnOf(r)) in ps)
      && (op == 0 && OnTable(r, alias) && ColumnOf(l).Some? && !OnTable(l, alias) ==>
            Pred(ColumnOf(r).value, JoinEq, ColumnOf(l)) in ps)
    case NullCheck(o, isNull) => OnTable(o, alias) ==> Pred(ColumnOf(o).value, if isNull then IsNull else NotNull, None) in ps
    case Flag(c, _) => c.qual.name == alias ==> Pred(RefOf(c), Eq, None) in ps
    case _ => true
  }

  lemma PartIsRead(x: Expr, alias: string)
    requires Valid(x)
    ensures FormRead(x, alias, PartPreds(x, alias))
  {
    hide Mentions, PrintOperand, ValidComputed, ValidCol, BranchColumn;
  }

  /** Nothing readable is passed over, as one conjunct of many. */
  lemma FormsAreRead(es: seq<Expr>, k: nat, alias: string)
    requires Valid(And(es)) && k < |es|
    ensures Valid(es[k]) && FormRead(es[k], alias, Conditions(Print(And(es)), alias))
  {
    var e := And(es);
    ConditionsRead(e, alias);
    assert es[k] in es;
    PartIsRead(es[k], alias);
    hide Conditions, Print, PartPreds, Valid;
    forall p | p in PartPreds(es[k], alias) ensures p in Preds(e, alias) {
      ConjunctIsRead(es, alias, k, p);
    }
    hide Mentions, PrintOperand, ColumnOf;
  }

  /** An OR of equalities on one column is read as an equality on it. */
  lemma {:induction false} BranchesAreRead(es: seq<Expr>, alias: string, c: Col, col: string)
    requires (forall x :: x in es ==> Valid(x) && Preds(x, alias) == [Pred(RefOf(c), Eq, None)])
    requires (col == "" || col == c.col.name) && es != []
    ensures BranchColumn(es, alias, col) == c.col.name
    decreases |es|
  {
    hide Valid, Preds;
    assert es[0] in es && forall x :: x in es[1..] ==> x in es;
    if |es| > 1 { BranchesAreRead(es[1..], alias, c, c.col.name); }
  }

  lemma OrIsRead(es: seq<Expr>, alias: string, c: Col)
    requires Valid(Or(es)) && ValidCol(c) && c.qual.name == alias
    requires forall x :: x in es ==> Conditions(Print(x), alias) == [Pred(RefOf(c), Eq, None)]
    ensures Conditions(Print(Or(es)), alias) == [Pred(RefOf(c), Eq, None)]
  {
    ConditionsRead(Or(es), alias);
    hide Conditions, Print;
    forall x | x in es ensures Preds(x, alias) == [Pred(RefOf(c), Eq, None)] { ConditionsRead(x, alias); }
    BranchesAreRead(es, alias, c, "");
  }
}
