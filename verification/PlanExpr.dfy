/** Conditions as trees: how PostgreSQL prints them, what they mean on a row, and the predicates they
    put on one table. */
module PlanExpr {
  import opened ByteText
  import opened PlanText

  /** A name, and whether it is printed without quotes. */
  datatype Ident = Ident(name: string, bare: bool)

  datatype Col = Col(qual: Ident, col: Ident)

  /** A piece of an expression the reader does not look into. A Sub stands for a value that can differ from
      row to row without naming a column: a correlated sub-select, printed (SubPlan 1), or a volatile call. */
  datatype Piece = Raw(text: string) | Sub(text: string, id: nat) | Literal(value: string) | Ref(c: Col)

  datatype Operand =
    | Column(c: Col)
    | CastColumn(c: Col, cast: nat)
    | Computed(fn: nat, pieces: seq<Piece>)

  datatype Expr =
    | And(es: seq<Expr>)
    | Or(es: seq<Expr>)
    | Compare(op: nat, left: Operand, right: Operand)
    | NullCheck(o: Operand, isNull: bool)
    | Flag(c: Col, negated: bool)
    | Opaque(text: string, fn: nat)

  // ---- Printing ----

  /** Each double quote doubled. */
  function Doubled(s: string, q: char): (r: string)
    decreases |s|
  {
    if s == "" then "" else (if s[0] == q then [q, q] else [s[0]]) + Doubled(s[1..], q)
  }

  function PrintIdent(i: Ident): (r: string) {
    if i.bare then i.name else "\"" + Doubled(i.name, '"') + "\""
  }

  function PrintCol(c: Col): (r: string) {
    PrintIdent(c.qual) + "." + PrintIdent(c.col)
  }

  function PrintPiece(p: Piece): (r: string) {
    match p
    case Raw(t) => t
    case Sub(t, _) => t
    case Literal(v) => "'" + Doubled(v, '\'') + "'"
    case Ref(c) => PrintCol(c)
  }

  function PrintPieces(ps: seq<Piece>): (r: string) {
    if ps == [] then "" else PrintPiece(ps[0]) + PrintPieces(ps[1..])
  }

  function PrintOperand(o: Operand): (r: string)
    requires o.CastColumn? ==> o.cast < |CASTS|
  {
    match o
    case Column(c) => PrintCol(c)
    case CastColumn(c, k) => "(" + PrintCol(c) + ")" + CASTS[k]
    case Computed(_, ps) => PrintPieces(ps)
  }

  function JoinTexts(ts: seq<string>, sep: string): (r: string)
  {
    if ts == [] then "" else if |ts| == 1 then ts[0] else ts[0] + sep + JoinTexts(ts[1..], sep)
  }

  function PrintAll(es: seq<Expr>): (ts: seq<string>)
    requires forall e :: e in es ==> Valid(e)
    ensures |ts| == |es|
    ensures forall k :: 0 <= k < |es| ==> ts[k] == Print(es[k])
    decreases es, 0
  {
    if es == [] then [] else [Print(es[0])] + PrintAll(es[1..])
  }

  /** The text without the parentheses around it. */
  function Inner(e: Expr): (r: string)
    requires Valid(e)
    decreases e, 1
  {
    match e
    case And(es) => JoinTexts(PrintAll(es), " AND ")
    case Or(es) => JoinTexts(PrintAll(es), " OR ")
    case Compare(op, l, r) => PrintOperand(l) + OPS[op] + PrintOperand(r)
    case NullCheck(o, isNull) => PrintOperand(o) + (if isNull then " IS NULL" else " IS NOT NULL")
    case Flag(c, negated) => if negated then "NOT " + PrintCol(c) else PrintCol(c)
    case Opaque(t, _) => Unwrap(t)
  }

  /** Everything is printed in parentheses, except a bare column; an opaque text stands as it is. */
  function Print(e: Expr): (r: string)
    requires Valid(e)
    decreases e, 2
  {
    match e
    case Opaque(t, _) => t
    case Flag(c, false) => PrintCol(c)
    case _ => "(" + Inner(e) + ")"
  }

  // ---- Which trees are printed ----

  /** A name printed bare: lower case letters, digits and underscores, not a digit first. */
  predicate BareName(s: string) {
    && s != "" && !IsDigit(s[0])
    && forall i :: 0 <= i < |s| ==> s[i] == '_' || IsDigit(s[i]) || 'a' <= s[i] <= 'z'
  }

  predicate ValidIdent(i: Ident) { i.name != "" && (i.bare ==> BareName(i.name)) }
  predicate ValidCol(c: Col) { ValidIdent(c.qual) && ValidIdent(c.col) }

  /** From `depth` open brackets, quotes close and brackets match to the end. */
  predicate Balanced(t: string, depth: nat, square: bool)
    decreases |t|
  {
    if t == "" then depth == 0
    else if IsQuote(t[0]) then QuoteCloses(t) && Balanced(t[QuoteLen(t)..], depth, square)
    else
      var d := Deeper(t[0], depth, square);
      d >= 0 && Balanced(t[1..], d, square)
  }

  /** No `sep` stands at the top level, not even one that the next blank would complete. */
  predicate TopFree(t: string, sep: string, depth: nat)
    decreases |t|
  {
    if t == "" then true
    else if IsQuote(t[0]) then TopFree(t[QuoteLen(t)..], sep, depth)
    else
      var d := Deeper(t[0], depth, true);
      && d >= 0
      && (d == 0 ==> !StartsWith(t + " ", sep))
      && TopFree(t[1..], sep, d)
  }

  const SEPS: seq<string> := [" AND ", " OR ", " = ", " <= ", " >= ", " < ", " > "]

  /** A text that stands for one thing: brackets match, its ends are no blanks, and no connective or
      comparison stands at its top level. */
  predicate Clean(t: string) {
    && t != "" && !IsSpaceByte(t[0]) && !IsSpaceByte(t[|t| - 1])
    && Balanced(t, 0, true) && Balanced(t, 0, false)
    && forall sep :: sep in SEPS ==> TopFree(" " + t, sep, 0)
  }

  /** No null test at the end. */
  predicate NoNullEnd(t: string) {
    !EndsWith(" " + t, " IS NULL") && !EndsWith(" " + t, " IS NOT NULL")
  }

  /** No part of a NOT or of a null test. */
  predicate Standalone(t: string) {
    !StartsWith(t + " ", "NOT ") && NoNullEnd(t)
  }

  /** A computed operand: one thing, and no column by itself. */
  predicate ValidComputed(ps: seq<Piece>) {
    var t := PrintPieces(ps);
    && Clean(t) && Standalone(t)
    && PlainCol(t).None?
    && (forall k :: 0 <= k < |ps| ==> ValidPiece(ps[k]))
    && (forall k :: 0 < k < |ps| && ps[k].Ref? ==> EndsPlain(PrintPieces(ps[..k])))
  }

  /** The text before a column is not the beginning of a longer name. */
  predicate EndsPlain(t: string) {
    t == "" || !IsIdentByte(t[|t| - 1])
  }

  predicate ValidPiece(p: Piece) {
    match p
    case Raw(t) => '\'' !in t && '"' !in t
    case Sub(t, _) => '\'' !in t && '"' !in t
    case Literal(_) => true
    case Ref(c) => ValidCol(c)
  }

  predicate ValidOperand(o: Operand) {
    match o
    case Column(c) => ValidCol(c)
    case CastColumn(c, k) => ValidCol(c) && k < |CASTS|
    case Computed(_, ps) => ValidComputed(ps)
  }

  /** None of the forms the reader knows. */
  predicate Unreadable(u: string) {
    && (forall sep :: sep in SEPS ==> sep != "" && SplitTop(u, sep) == [u])
    && !EndsWith(u, " IS NULL") && !EndsWith(u, " IS NOT NULL")
    && PlainCol(TrimPrefix(u, "NOT ")).None?
  }

  predicate Valid(e: Expr)
    decreases e
  {
    match e
    case And(es) => |es| >= 2 && forall x :: x in es ==> Valid(x)
    case Or(es) => |es| >= 2 && forall x :: x in es ==> Valid(x)
    case Compare(op, l, r) => op < |OPS| && ValidOperand(l) && ValidOperand(r)
    case NullCheck(o, _) => ValidOperand(o)
    case Flag(c, _) => ValidCol(c)
    case Opaque(t, _) => Clean(t) && Standalone(t) && Unreadable(Unwrap(t))
  }

  // ---- The predicates of a tree ----

  function RefOf(c: Col): ColRef { ColRef(c.qual.name, c.col.name) }

  function ColumnOf(o: Operand): Option<ColRef> {
    if o.Computed? then None else Some(RefOf(o.c))
  }

  function OnAlias(c: Option<ColRef>, alias: string, kind: Kind): (ps: seq<Pred>) {
    if c.Some? && c.value.qual == alias then [Pred(c.value, kind, None)] else []
  }

  /** A comparison: a join with another table's column, or an equality or range when the other side does
      not name the table. */
  function ComparePreds(op: nat, l: Operand, r: Operand, alias: string): (ps: seq<Pred>)
    requires ValidOperand(l) && ValidOperand(r)
  {
    var (lc, rc) := (ColumnOf(l), ColumnOf(r));
    var lHere, rHere := lc.Some? && lc.value.qual == alias, rc.Some? && rc.value.qual == alias;
    var kind := if op == 0 then Eq else Range;
    if lHere && rc.Some? && !rHere then if op == 0 then [Pred(lc.value, JoinEq, rc)] else []
    else if rHere && lc.Some? && !lHere then if op == 0 then [Pred(rc.value, JoinEq, lc)] else []
    else if lHere && !Mentions(PrintOperand(r), alias) then [Pred(lc.value, kind, None)]
    else if rHere && !Mentions(PrintOperand(l), alias) then [Pred(rc.value, kind, None)]
    else []
  }

  /** The predicates of a tree: those of its top-level conjuncts. */
  function Preds(e: Expr, alias: string): (ps: seq<Pred>)
    requires Valid(e)
    decreases e, 2
  {
    match e
    case And(es) => ConjunctPreds(es, alias)
    case _ => PartPreds(e, alias)
  }

  function ConjunctPreds(es: seq<Expr>, alias: string): (ps: seq<Pred>)
    requires forall x :: x in es ==> Valid(x)
    decreases es, 0
  {
    if es == [] then [] else PartPreds(es[0], alias) + ConjunctPreds(es[1..], alias)
  }

  /** One conjunct. A conjunction inside a conjunction is not looked into. */
  function PartPreds(e: Expr, alias: string): (ps: seq<Pred>)
    requires Valid(e)
    decreases e, 1
  {
    match e
    case And(_) => []
    case Or(es) =>
      var col := BranchColumn(es, alias, "");
      if col == "" then [] else [Pred(ColRef(alias, col), Eq, None)]
    case Compare(op, l, r) => ComparePreds(op, l, r, alias)
    case NullCheck(o, isNull) => OnAlias(ColumnOf(o), alias, if isNull then IsNull else NotNull)
    case Flag(c, _) => OnAlias(Some(RefOf(c)), alias, Eq)
    case Opaque(_, _) => []
  }

  /** The column on which every branch has its one equality. */
  function BranchColumn(es: seq<Expr>, alias: string, col: string): (c: string)
    requires forall x :: x in es ==> Valid(x)
    decreases es, 0
  {
    if es == [] then col
    else
      var ps := Preds(es[0], alias);
      if |ps| != 1 || ps[0].kind != Eq || (col != "" && ps[0].col.col != col) then ""
      else BranchColumn(es[1..], alias, ps[0].col.col)
  }

  // ---- Meaning ----

  /** A column's value; a flag that holds is One, one that does not is Zero. */
  datatype Value = Null | Zero | One | Other(id: int)

  type Row = string -> Value

  /** Everything outside the table, and what the functions PostgreSQL computes do: a computed operand is a
      function of the values in its text, a sub-select and an opaque condition of the whole row. */
  datatype World = World(others: (string, string) -> Value,
                         compute: (nat, seq<Value>) -> Value,
                         sub: (nat, Row) -> Value,
                         holds: (nat, Row) -> bool,
                         less: (Value, Value) -> bool)

  function Lookup(c: Col, alias: string, row: Row, w: World): Value {
    if c.qual.name == alias then row(c.col.name) else w.others(c.qual.name, c.col.name)
  }

  function LookupAll(ps: seq<Piece>, alias: string, row: Row, w: World): seq<Value> {
    if ps == [] then []
    else
      (match ps[0]
       case Ref(c) => [Lookup(c, alias, row, w)]
       case Sub(_, id) => [w.sub(id, row)]
       case _ => [])
      + LookupAll(ps[1..], alias, row, w)
  }

  /** A cast to text does not change which value a column holds. */
  function Eval(o: Operand, alias: string, row: Row, w: World): Value {
    match o
    case Column(c) => Lookup(c, alias, row, w)
    case CastColumn(c, _) => Lookup(c, alias, row, w)
    case Computed(fn, ps) => w.compute(fn, LookupAll(ps, alias, row, w))
  }

  /** A comparison is true of two values: never when one is null. */
  predicate Holds(op: nat, a: Value, b: Value, w: World) {
    && a != Null && b != Null
    && match op
       case 0 => a == b
       case 1 => a == b || w.less(a, b)
       case 2 => a == b || w.less(b, a)
       case 3 => w.less(a, b)
       case _ => w.less(b, a)
  }

  predicate IsTrue(e: Expr, alias: string, row: Row, w: World)
    decreases e
  {
    match e
    case And(es) => forall x :: x in es ==> IsTrue(x, alias, row, w)
    case Or(es) => exists x :: x in es && IsTrue(x, alias, row, w)
    case Compare(op, l, r) => Holds(op, Eval(l, alias, row, w), Eval(r, alias, row, w), w)
    case NullCheck(o, isNull) => (Eval(o, alias, row, w) == Null) == isNull
    case Flag(c, negated) => Lookup(c, alias, row, w) == if negated then Zero else One
    case Opaque(_, fn) => w.holds(fn, row)
  }

  /** Where `e` holds, the column's value is one of `vs`. */
  ghost predicate AmongValues(e: Expr, alias: string, col: string, vs: set<Value>, w: World) {
    forall row: Row :: IsTrue(e, alias, row, w) ==> row(col) in vs
  }

  /** Where `e` holds, the column's value lies on one side of `v`. */
  ghost predicate OneSided(e: Expr, alias: string, col: string, op: nat, v: Value, left: bool, w: World) {
    && 1 <= op < |OPS|
    && forall row: Row :: IsTrue(e, alias, row, w) ==> if left then Holds(op, row(col), v, w) else Holds(op, v, row(col), w)
  }

  /** `e` confines the table to the rows `p` speaks of: an equality to finitely many values of the column,
      a range to one side of a value, a join to the other table's value, whatever the row. */
  ghost predicate Confines(e: Expr, alias: string, p: Pred, w: World) {
    && p.col.qual == alias
    && match p.kind
       case Eq => exists vs: set<Value> :: AmongValues(e, alias, p.col.col, vs, w)
       case Range => exists op: nat, v: Value, left: bool :: OneSided(e, alias, p.col.col, op, v, left, w)
       case IsNull => forall row: Row :: IsTrue(e, alias, row, w) ==> row(p.col.col) == Null
       case NotNull => forall row: Row :: IsTrue(e, alias, row, w) ==> row(p.col.col) != Null
       case JoinEq => && p.other.Some? && p.other.value.qual != alias
                      && forall row: Row :: IsTrue(e, alias, row, w) ==>
                           row(p.col.col) == w.others(p.other.value.qual, p.other.value.col)
  }
}
