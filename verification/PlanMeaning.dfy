/** The predicates conditions reads are sound: where the expression holds, the table's rows are among
    those each predicate speaks of. */
module PlanMeaning {
  import opened ByteText
  import opened PlanText
  import opened PlanExpr
  import opened PlanColumns
  import opened PlanReading

  // ---- mentions finds every column of the table ----

  predicate NoApostrophe(c: Col) { '\'' !in c.qual.name && '\'' !in c.col.name }

  /** Past text without apostrophes. */
  lemma {:induction false} Advance(s: string, i: nat, n: nat, alias: string)
    requires i + n <= |s| && (forall j :: i <= j < i + n ==> s[j] != '\'')
    requires MentionsFrom(s, i + n, alias)
    ensures MentionsFrom(s, i, alias)
    decreases n
  {
    if n > 0 { Advance(s, i + 1, n - 1, alias); }
  }

  lemma LiteralStep(s: string, p: nat, alias: string)
    requires p < |s| && s[p] == '\'' && QuoteCloses(s[p..])
    ensures p + QuoteLen(s[p..]) <= |s| && MentionsFrom(s, p, alias) == MentionsFrom(s, p + QuoteLen(s[p..]), alias)
  {
    var k := NextQuote(s[p..], '\'', 1);
    assert s[p + k] == '\'' && forall j :: p + 1 <= j < p + k ==> s[j] == s[p..][j - p];
    assert NextQuote(s, '\'', p + 1) == p + k;
  }

  lemma QuotedStarts(v: string, q: char, rest: string)
    ensures QuotedText(v, q, rest) != "" && QuotedText(v, q, rest)[0] == q
  {
    hide Doubled;
  }

  /** One run of a literal. */
  lemma LiteralRun(s: string, p: nat, v: string, rest: string, alias: string) returns (k: nat)
    requires p <= |s| && s[p..] == QuotedText(v, '\'', rest)
    ensures k <= |v| && p + k + 2 <= |s| && MentionsFrom(s, p, alias) == MentionsFrom(s, p + k + 2, alias)
    ensures s[p + k + 2..] == if k < |v| then QuotedText(v[k + 1..], '\'', rest) else rest
  {
    hide QuotedText, MentionsFrom, QuoteLen, QuoteCloses;
    k := QuotedRun(v, '\'', rest);
    QuotedStarts(v, '\'', rest);
    assert s[p..][0] == s[p];
    LiteralStep(s, p, alias);
    assert s[p..][k + 2..] == s[p + k + 2..];
  }

  /** Past a literal. */
  lemma {:induction false} AdvanceLiteral(s: string, p: nat, v: string, rest: string, alias: string)
    requires p <= |s| && s[p..] == QuotedText(v, '\'', rest) && |rest| <= |s| && MentionsFrom(s, |s| - |rest|, alias)
    ensures MentionsFrom(s, p, alias)
    decreases |v|
  {
    hide QuotedText, MentionsFrom;
    var k := LiteralRun(s, p, v, rest, alias);
    if k < |v| {
      AdvanceLiteral(s, p + k + 2, v[k + 1..], rest, alias);
    }
  }

  lemma {:induction false} DoubledPlain(v: string, q: char)
    requires q !in v
    ensures Doubled(v, q) == v
    decreases |v|
  {
    if v != "" {
      assert v[0] in v && forall c :: c in v[1..] ==> c in v;
      DoubledPlain(v[1..], q);
      assert [v[0]] + v[1..] == v;
    }
  }

  lemma {:induction false} DoubledBytes(v: string, q: char, c: char)
    requires c !in v && c != q
    ensures c !in Doubled(v, q)
    decreases |v|
  {
    if v != "" {
      assert v[0] in v && forall x :: x in v[1..] ==> x in v;
      DoubledBytes(v[1..], q, c);
    }
  }

  lemma ColNoApostrophe(c: Col)
    requires NoApostrophe(c)
    ensures '\'' !in PrintCol(c)
  {
    DoubledBytes(c.qual.name, '"', '\'');
    DoubledBytes(c.col.name, '"', '\'');
  }

  lemma FoundAt(s: string, p: nat, alias: string)
    requires p < |s| && s[p] != '\'' && (p == 0 || !IsIdentByte(s[p - 1]))
    requires At(s, p, alias + ".") || At(s, p, "\"" + alias + "\".")
    ensures MentionsFrom(s, p, alias)
  {
  }

  /** A column of the table is found where it stands. */
  lemma RefFound(pre: string, c: Col, rest: string)
    requires ValidCol(c) && EndsPlain(pre) && '"' !in c.qual.name
    ensures MentionsFrom(pre + PrintCol(c) + rest, |pre|, c.qual.name)
  {
    hide MentionsFrom, Doubled;
    var alias, p, last := c.qual.name, |pre|, PrintIdent(c.col);
    var mark := if c.qual.bare then alias + "." else "\"" + alias + "\".";
    DoubledPlain(alias, '"');
    assert PrintCol(c) == mark + last;
    var s := pre + PrintCol(c) + rest;
    assert s == pre + mark + (last + rest);
    assert s[p..p + |mark|] == mark && s[p] == mark[0];
    assert p > 0 ==> s[p - 1] == pre[p - 1];
    FoundAt(s, p, alias);
  }

  lemma {:induction false} PiecesConcat(a: seq<Piece>, b: seq<Piece>)
    ensures PrintPieces(a + b) == PrintPieces(a) + PrintPieces(b)
    decreases |a|
  {
    hide PrintPiece;
    if a == [] {
      assert a + b == b;
    } else {
      assert (a + b)[0] == a[0] && (a + b)[1..] == a[1..] + b;
      PiecesConcat(a[1..], b);
    }
  }

  lemma OnePiece(p: Piece)
    ensures PrintPieces([p]) == PrintPiece(p)
  {
    hide PrintPiece;
    assert [p][1..] == [];
  }

  lemma PiecesSplit(ps: seq<Piece>, k: nat)
    requires k < |ps|
    ensures PrintPieces(ps) == PrintPieces(ps[..k]) + PrintPiece(ps[k]) + PrintPieces(ps[k + 1..])
    ensures PrintPieces(ps[..k + 1]) == PrintPieces(ps[..k]) + PrintPiece(ps[k])
  {
    hide PrintPiece, PrintPieces;
    assert ps[..k + 1] == ps[..k] + [ps[k]] && ps == ps[..k + 1] + ps[k + 1..];
    PiecesConcat(ps[..k], [ps[k]]);
    PiecesConcat(ps[..k + 1], ps[k + 1..]);
    OnePiece(ps[k]);
  }

  predicate NoApostrophes(ps: seq<Piece>) {
    forall k :: 0 <= k < |ps| && ps[k].Ref? ==> NoApostrophe(ps[k].c)
  }

  /** From the end of a piece back to its start. */
  lemma MentionedBefore(pre: string, p: Piece, rest: string, alias: string)
    requires ValidPiece(p) && (p.Ref? ==> NoApostrophe(p.c))
    requires MentionsFrom(pre + PrintPiece(p) + rest, |pre + PrintPiece(p)|, alias)
    ensures MentionsFrom(pre + PrintPiece(p) + rest, |pre|, alias)
  {
    hide MentionsFrom, Doubled, PrintCol;
    var t := PrintPiece(p);
    var s := pre + t + rest;
    if p.Literal? {
      assert s[|pre|..] == t + rest == QuotedText(p.value, '\'', rest);
      AdvanceLiteral(s, |pre|, p.value, rest, alias);
    } else {
      assert '\'' !in t by { if p.Ref? { ColNoApostrophe(p.c); } }
      assert forall j :: |pre| <= j < |pre| + |t| ==> s[j] == t[j - |pre|];
      Advance(s, |pre|, |t|, alias);
    }
  }

  /** From the k-th piece back to the start of the text. */
  lemma {:induction false} MentionedFromStart(ps: seq<Piece>, k: nat, alias: string)
    requires k <= |ps| && NoApostrophes(ps) && forall j :: 0 <= j < |ps| ==> ValidPiece(ps[j])
    requires MentionsFrom(PrintPieces(ps), |PrintPieces(ps[..k])|, alias)
    ensures MentionsFrom(PrintPieces(ps), 0, alias)
    decreases k
  {
    hide MentionsFrom, PrintPieces, PrintPiece, ValidPiece, NoApostrophe;
    if k > 0 {
      PiecesSplit(ps, k - 1);
      MentionedBefore(PrintPieces(ps[..k - 1]), ps[k - 1], PrintPieces(ps[k..]), alias);
      MentionedFromStart(ps, k - 1, alias);
    } else {
      assert PrintPieces(ps[..0]) == "" by { assert ps[..0] == []; EmptyPieces(); }
    }
  }

  lemma EmptyPieces()
    ensures PrintPieces([]) == ""
  {
  }

  /** The operand names a column of the table. */
  predicate RefersTo(o: Operand, alias: string) {
    match o
    case Column(c) => c.qual.name == alias
    case CastColumn(c, _) => c.qual.name == alias
    case Computed(_, ps) => exists k :: 0 <= k < |ps| && ps[k].Ref? && ps[k].c.qual.name == alias
  }

  /** The operand's names hold no apostrophe, which mentions takes for the start of a literal. */
  predicate PlainNames(o: Operand) {
    o.Computed? ==> NoApostrophes(o.pieces)
  }

  /** mentions misses no column of the table, if the table's name holds no double quote. */
  lemma MentionsComplete(o: Operand, alias: string)
    requires ValidOperand(o)
    ensures PlainNames(o) && '"' !in alias && RefersTo(o, alias) ==> Mentions(PrintOperand(o), alias)
  {
    hide MentionsFrom, PrintCol, Clean, Standalone, PlainCol;
    if PlainNames(o) && '"' !in alias && RefersTo(o, alias) {
      match o
      case Column(c) =>
        RefFound("", c, "");
        assert "" + PrintCol(c) + "" == PrintCol(c);
      case CastColumn(c, k) =>
        RefFound("(", c, ")" + CASTS[k]);
        var s := "(" + PrintCol(c) + ")" + CASTS[k];
        assert "(" + PrintCol(c) + (")" + CASTS[k]) == s;
        Advance(s, 0, 1, alias);
      case Computed(_, ps) =>
        var k :| 0 <= k < |ps| && ps[k].Ref? && ps[k].c.qual.name == alias;
        PiecesSplit(ps, k);
        assert EndsPlain(PrintPieces(ps[..k])) by {
          if k == 0 { assert ps[..0] == []; EmptyPieces(); }
        }
        assert ValidPiece(ps[k]);
        RefFound(PrintPieces(ps[..k]), ps[k].c, PrintPieces(ps[k + 1..]));
        MentionedFromStart(ps, k, alias);
    }
  }

  // ---- Soundness ----

  predicate HasSub(o: Operand) {
    o.Computed? && exists k :: 0 <= k < |o.pieces| && o.pieces[k].Sub?
  }

  /** The operand's value can differ from row to row of the table. */
  predicate Varies(o: Operand, alias: string) {
    RefersTo(o, alias) || HasSub(o)
  }

  predicate OnTable(o: Operand, alias: string) {
    ColumnOf(o).Some? && ColumnOf(o).value.qual == alias
  }

  /** An operand that does not vary has one value for all rows. */
  lemma SameForAllRows(o: Operand, alias: string, w: World, row: Row, row': Row)
    requires !Varies(o, alias)
    ensures Eval(o, alias, row, w) == Eval(o, alias, row', w)
  {
    if o.Computed? { SameLookups(o.pieces, alias, w, row, row'); }
  }

  lemma {:induction false} SameLookups(ps: seq<Piece>, alias: string, w: World, row: Row, row': Row)
    requires forall k :: 0 <= k < |ps| ==> !ps[k].Sub? && (ps[k].Ref? ==> ps[k].c.qual.name != alias)
    ensures LookupAll(ps, alias, row, w) == LookupAll(ps, alias, row', w)
  {
    if ps != [] { SameLookups(ps[1..], alias, w, row, row'); }
  }

  /** What is compared with a column of the table and varies is seen by mentions. */
  predicate Guarded(l: Operand, r: Operand, alias: string)
    requires ValidOperand(l) && ValidOperand(r)
  {
    && (OnTable(l, alias) && Varies(r, alias) ==> Mentions(PrintOperand(r), alias))
    && (OnTable(r, alias) && Varies(l, alias) ==> Mentions(PrintOperand(l), alias))
  }

  /** Every comparison is guarded. */
  predicate Seen(e: Expr, alias: string)
    requires Valid(e)
    decreases e
  {
    match e
    case And(es) => forall x :: x in es ==> Seen(x, alias)
    case Or(es) => forall x :: x in es ==> Seen(x, alias)
    case Compare(op, l, r) => Guarded(l, r, alias)
    case _ => true
  }

  /** Names without apostrophes and a table name without double quotes are always seen; what varies without
      a name is not compared with the table. */
  lemma {:induction false} PlainNamesSeen(e: Expr, alias: string)
    requires Valid(e) && '"' !in alias && AllPlain(e, alias)
    ensures Seen(e, alias)
    decreases e
  {
    hide Mentions, PrintOperand, RefersTo, HasSub, ValidComputed, ValidCol, NoApostrophes;
    match e
    case And(es) => forall x | x in es ensures Seen(x, alias) { PlainNamesSeen(x, alias); }
    case Or(es) => forall x | x in es ensures Seen(x, alias) { PlainNamesSeen(x, alias); }
    case Compare(op, l, r) =>
      if RefersTo(l, alias) { MentionsComplete(l, alias); }
      if RefersTo(r, alias) { MentionsComplete(r, alias); }
    case NullCheck(_, _) =>
    case Flag(_, _) =>
    case Opaque(_, _) =>
  }

  /** No name in a comparison holds an apostrophe, and no column of the table is compared with a sub-select
      or a volatile call. */
  predicate AllPlain(e: Expr, alias: string)
    decreases e
  {
    match e
    case And(es) => forall x :: x in es ==> AllPlain(x, alias)
    case Or(es) => forall x :: x in es ==> AllPlain(x, alias)
    case Compare(op, l, r) =>
      PlainNames(l) && PlainNames(r) && (OnTable(l, alias) ==> !HasSub(r)) && (OnTable(r, alias) ==> !HasSub(l))
    case _ => true
  }

  /** One side is a column of the table, the other the same for all its rows. */
  lemma SideConfines(op: nat, l: Operand, r: Operand, left: bool, c: ColRef, w: World)
    requires op < |OPS|
    requires var (here, other) := if left then (l, r) else (r, l); ColumnOf(here) == Some(c) && !Varies(other, c.qual)
    ensures Confines(Compare(op, l, r), c.qual, Pred(c, if op == 0 then Eq else Range, None), w)
  {
    var e, alias := Compare(op, l, r), c.qual;
    var (here, other) := if left then (l, r) else (r, l);
    var row0: Row := _ => Null;
    var v := Eval(other, alias, row0, w);
    forall row: Row ensures Eval(other, alias, row, w) == v && Eval(here, alias, row, w) == row(c.col) {
      SameForAllRows(other, alias, w, row, row0);
    }
    if op == 0 {
      assert AmongValues(e, alias, c.col, {v}, w);
    } else {
      assert OneSided(e, alias, c.col, op, v, left, w);
    }
  }

  lemma CompareConfines(op: nat, l: Operand, r: Operand, alias: string, w: World, p: Pred)
    requires op < |OPS| && ValidOperand(l) && ValidOperand(r) && Guarded(l, r, alias)
    requires p in ComparePreds(op, l, r, alias)
    ensures Confines(Compare(op, l, r), alias, p, w)
  {
    hide Mentions, PrintOperand, ValidComputed, ValidCol;
    if p.kind != JoinEq {
      var left := ColumnOf(l) == Some(p.col) && !Mentions(PrintOperand(r), alias);
      SideConfines(op, l, r, left, p.col, w);
    }
  }

  /** What confines a weaker condition confines a stronger one. */
  lemma Weaken(strong: Expr, weak: Expr, alias: string, p: Pred, w: World)
    requires forall row: Row :: IsTrue(strong, alias, row, w) ==> IsTrue(weak, alias, row, w)
    requires Confines(weak, alias, p, w)
    ensures Confines(strong, alias, p, w)
  {
    hide IsTrue;
    if p.kind == Eq {
      var vs :| AmongValues(weak, alias, p.col.col, vs, w);
      assert AmongValues(strong, alias, p.col.col, vs, w);
    } else if p.kind == Range {
      var op: nat, v, left :| OneSided(weak, alias, p.col.col, op, v, left, w);
      assert OneSided(strong, alias, p.col.col, op, v, left, w);
    }
  }

  /** Every branch puts an equality on the column: together their values are finitely many. */
  lemma {:induction false} BranchesConfine(es: seq<Expr>, alias: string, col: string, w: World) returns (vs: set<Value>)
    requires (forall x :: x in es ==> Valid(x) && Seen(x, alias)) && BranchColumn(es, alias, col) != ""
    ensures col != "" ==> BranchColumn(es, alias, col) == col
    ensures forall x :: x in es ==> AmongValues(x, alias, BranchColumn(es, alias, col), vs, w)
    decreases es, 0
  {
    hide Valid, Seen, Preds, AmongValues;
    vs := {};
    if es != [] {
      var p := Preds(es[0], alias)[0];
      PredsConfine(es[0], alias, w, p);
      PredsNamed(es[0], alias, p);
      var here :| AmongValues(es[0], alias, p.col.col, here, w);
      var there := BranchesConfine(es[1..], alias, p.col.col, w);
      vs := here + there;
      forall x | x in es ensures AmongValues(x, alias, p.col.col, vs, w) {
        if x == es[0] {
          MoreValues(x, alias, p.col.col, here, vs, w);
        } else {
          assert x in es[1..];
          MoreValues(x, alias, p.col.col, there, vs, w);
        }
      }
    }
  }

  lemma MoreValues(e: Expr, alias: string, col: string, vs: set<Value>, more: set<Value>, w: World)
    requires AmongValues(e, alias, col, vs, w) && vs <= more
    ensures AmongValues(e, alias, col, more, w)
  {
    hide IsTrue;
  }

  /** No predicate is on a column without a name. */
  lemma {:induction false} PredsNamed(e: Expr, alias: string, p: Pred)
    requires Valid(e) && p in Preds(e, alias)
    ensures p.col.col != ""
    decreases e, 2
  {
    hide Mentions, PrintOperand, ValidComputed, BranchColumn;
    if e.And? { var _ := ConjunctOf(e.es, alias, p); }
  }

  /** A predicate of a conjunction comes from one of its conjuncts. */
  lemma {:induction false} ConjunctOf(es: seq<Expr>, alias: string, p: Pred) returns (x: Expr)
    requires (forall x :: x in es ==> Valid(x)) && p in ConjunctPreds(es, alias)
    ensures x in es && p in PartPreds(x, alias) && !x.And?
    decreases |es|
  {
    hide Valid;
    x := es[0];
    if p !in PartPreds(x, alias) { x := ConjunctOf(es[1..], alias, p); }
  }

  lemma {:induction false} PartConfines(e: Expr, alias: string, w: World, p: Pred)
    requires Valid(e) && Seen(e, alias) && p in PartPreds(e, alias)
    ensures Confines(e, alias, p, w)
    decreases e, 1
  {
    hide Mentions, PrintOperand, ValidComputed, ValidCol, ComparePreds, Guarded;
    match e
    case And(_) =>
    case Or(es) =>
      var vs := BranchesConfine(es, alias, "", w);
      hide Valid, Seen;
      assert AmongValues(e, alias, p.col.col, vs, w);
    case Compare(op, l, r) => CompareConfines(op, l, r, alias, w, p);
    case NullCheck(o, isNull) =>
    case Flag(c, negated) =>
      assert AmongValues(e, alias, p.col.col, {if negated then Zero else One}, w);
    case Opaque(_, _) =>
  }

  lemma {:induction false} PredsConfine(e: Expr, alias: string, w: World, p: Pred)
    requires Valid(e) && Seen(e, alias) && p in Preds(e, alias)
    ensures Confines(e, alias, p, w)
    decreases e, 2
  {
    if e.And? {
      var x := ConjunctOf(e.es, alias, p);
      PartConfines(x, alias, w, p);
      Weaken(e, x, alias, p, w);
    } else {
      PartConfines(e, alias, w, p);
    }
  }

  /** Every predicate read from the printed condition confines the table, in every world. */
  ghost predicate ReadSoundly(e: Expr, alias: string)
    requires Valid(e)
  {
    forall p: Pred, w: World :: p in Conditions(Print(e), alias) ==> Confines(e, alias, p, w)
  }

  /** Reading a printed condition whose comparisons are guarded is sound: each predicate conditions returns is
      on the table, and where the condition holds the row is one the predicate speaks of. */
  lemma ConditionsSound(e: Expr, alias: string)
    requires Valid(e) && Seen(e, alias)
    ensures ReadSoundly(e, alias)
  {
    hide Confines, Conditions, Print, Seen, Valid;
    ConditionsRead(e, alias);
    forall p: Pred, w: World | p in Conditions(Print(e), alias) ensures Confines(e, alias, p, w) {
      PredsConfine(e, alias, w, p);
    }
  }

  /** So it is for plain names. */
  lemma PlainConditionsSound(e: Expr, alias: string)
    requires Valid(e) && '"' !in alias && AllPlain(e, alias)
    ensures ReadSoundly(e, alias)
  {
    PlainNamesSeen(e, alias);
    ConditionsSound(e, alias);
  }
}
