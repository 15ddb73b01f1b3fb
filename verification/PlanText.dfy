/** The text of a plan's conditions, as PostgreSQL prints it, and how the reader takes it apart:
    quotes, parentheses, splitting at the top level, column references. */
module PlanText {
  import opened ByteText

  predicate IsQuote(c: char) { c == '\'' || c == '"' }
  predicate IsOpen(c: char, square: bool) { c == '(' || (square && c == '[') }
  predicate IsClose(c: char, square: bool) { c == ')' || (square && c == ']') }

  /** The first `q` at or after `i`, or the end of the text. */
  function NextQuote(s: string, q: char, i: nat): (k: nat)
    requires i <= |s|
    ensures i <= k <= |s|
    ensures forall j :: i <= j < k ==> s[j] != q
    ensures k < |s| ==> s[k] == q
    decreases |s| - i
  {
    if i == |s| || s[i] == q then i else NextQuote(s, q, i + 1)
  }

  /** The length of the quoted text `s` starts with: to the next quote of its kind, or to the end. */
  function QuoteLen(s: string): (n: nat)
    requires s != ""
    ensures 1 <= n <= |s|
  {
    var k := NextQuote(s, s[0], 1);
    if k < |s| then k + 1 else |s|
  }

  predicate QuoteCloses(s: string)
    requires s != ""
  {
    NextQuote(s, s[0], 1) < |s|
  }

  // ---- splitTop ----

  /** The depth after one byte outside quotes. */
  function Deeper(c: char, depth: int, square: bool): int {
    if IsOpen(c, square) then depth + 1 else if IsClose(c, square) then depth - 1 else depth
  }

  /** The parts of the rest of a text: `cur` is the current part so far. */
  function SplitFrom(s: string, sep: string, depth: int, cur: string): (ps: seq<string>)
    requires sep != ""
    ensures |ps| >= 1
    decreases |s|
  {
    if s == "" then [cur]
    else if IsQuote(s[0]) then SplitFrom(s[QuoteLen(s)..], sep, depth, cur + s[..QuoteLen(s)])
    else
      var d := Deeper(s[0], depth, true);
      if d == 0 && StartsWith(s, sep) then [cur] + SplitFrom(s[|sep|..], sep, d, "")
      else SplitFrom(s[1..], sep, d, cur + [s[0]])
  }

  /** splitTop: `s` cut at `sep`, outside parentheses, brackets and quotes. */
  function SplitTop(s: string, sep: string): (ps: seq<string>)
    requires sep != ""
    ensures |ps| >= 1
  {
    SplitFrom(s, sep, 0, "")
  }

  /** The length of the parts with `gap` bytes between each two. */
  function Total(ps: seq<string>, gap: nat): (n: nat) {
    if ps == [] then 0 else if |ps| == 1 then |ps[0]| else |ps[0]| + gap + Total(ps[1..], gap)
  }

  /** Splitting loses only the separators. */
  lemma {:induction false} SplitTotal(s: string, sep: string, depth: int, cur: string)
    requires sep != ""
    ensures Total(SplitFrom(s, sep, depth, cur), |sep|) == |cur| + |s|
    decreases |s|
  {
    if s != "" {
      if IsQuote(s[0]) {
        SplitTotal(s[QuoteLen(s)..], sep, depth, cur + s[..QuoteLen(s)]);
      } else {
        var d := Deeper(s[0], depth, true);
        if d == 0 && StartsWith(s, sep) {
          var rest := SplitFrom(s[|sep|..], sep, d, "");
          SplitTotal(s[|sep|..], sep, d, "");
          assert ([cur] + rest)[1..] == rest;
        } else {
          SplitTotal(s[1..], sep, d, cur + [s[0]]);
        }
      }
    }
  }

  lemma {:induction false} TotalBounds(ps: seq<string>, gap: nat, k: nat)
    requires k < |ps|
    ensures |ps[k]| <= Total(ps, gap)
    ensures |ps| > 1 ==> |ps[k]| + gap <= Total(ps, gap)
  {
    if k > 0 { TotalBounds(ps[1..], gap, k - 1); }
  }

  /** A part is no longer than the text, and strictly shorter when there are several. */
  lemma PartLength(s: string, sep: string, k: nat)
    requires sep != "" && k < |SplitTop(s, sep)|
    ensures |SplitTop(s, sep)[k]| <= |s|
    ensures |SplitTop(s, sep)| > 1 ==> |SplitTop(s, sep)[k]| < |s|
  {
    SplitTotal(s, sep, 0, "");
    TotalBounds(SplitTop(s, sep), |sep|, k);
  }

  // ---- closing and unwrap ----

  /** How many bytes of `s` it takes to close `depth` parentheses and those opened on the way. */
  function Closing(s: string, depth: int): (n: Option<nat>)
    ensures n.Some? ==> 1 <= n.value <= |s|
    decreases |s|
  {
    if s == "" then None
    else if IsQuote(s[0]) then Longer(Closing(s[QuoteLen(s)..], depth), QuoteLen(s))
    else
      var d := Deeper(s[0], depth, false);
      if s[0] == ')' && d == 0 then Some(1) else Longer(Closing(s[1..], d), 1)
  }

  function Longer(n: Option<nat>, k: nat): Option<nat> {
    if n.None? then None else Some(n.value + k)
  }

  /** Parentheses around the whole text. */
  predicate Wrapped(s: string) {
    |s| >= 2 && s[0] == '(' && s[|s| - 1] == ')' && Closing(s, 0) == Some(|s|)
  }

  function UnwrapTrimmed(s: string): (r: string)
    ensures |r| <= |s|
    ensures !Wrapped(r)
    decreases |s|
  {
    if Wrapped(s) then UnwrapTrimmed(TrimSpace(s[1..|s| - 1])) else s
  }

  /** unwrap. */
  function Unwrap(s: string): (r: string)
    ensures |r| <= |s|
    ensures !Wrapped(r)
  {
    UnwrapTrimmed(TrimSpace(s))
  }

  // ---- Column references ----

  predicate IsIdentChar(c: char) { IsIdentByte(c) || c == '$' }

  function IdentRun(s: string, i: nat): (e: nat)
    requires i <= |s|
    ensures i <= e <= |s|
    ensures forall j :: i <= j < e ==> IsIdentChar(s[j])
    ensures e < |s| ==> !IsIdentChar(s[e])
    decreases |s| - i
  {
    if i == |s| || !IsIdentChar(s[i]) then i else IdentRun(s, i + 1)
  }

  /** The rest of a quoted identifier: its text, doubled quotes made single, and what follows it. */
  function QuotedIdent(s: string, got: string): (r: Option<(string, string)>)
    ensures r.Some? ==> |r.value.1| < |s|
    decreases |s|
  {
    if s == "" then None
    else if s[0] != '"' then QuotedIdent(s[1..], got + [s[0]])
    else if |s| > 1 && s[1] == '"' then QuotedIdent(s[2..], got + ['"'])
    else Some((got, s[1..]))
  }

  /** One identifier and what follows it. */
  function OneIdent(s: string): (r: Option<(string, string)>)
    requires s != ""
    ensures r.Some? ==> |r.value.1| < |s|
  {
    if s[0] == '"' then QuotedIdent(s[1..], "")
    else
      var e := IdentRun(s, 0);
      if e == 0 || IsDigit(s[0]) then None else Some((s[..e], s[e..]))
  }

  /** identList: identifiers joined by dots. */
  function IdentsFrom(s: string, out: seq<string>): (r: Option<seq<string>>)
    decreases |s|
  {
    if s == "" then Some(out)
    else
      var id := OneIdent(s);
      if id.None? then None
      else
        var (name, rest) := id.value;
        if rest == "" then Some(out + [name])
        else if rest[0] != '.' then None
        else IdentsFrom(rest[1..], out + [name])
  }

  datatype ColRef = ColRef(qual: string, col: string)

  /** colRef: exactly two identifiers. */
  function ReadCol(s: string): (r: Option<ColRef>) {
    var ids := IdentsFrom(s, []);
    if ids.Some? && |ids.value| == 2 then Some(ColRef(ids.value[0], ids.value[1])) else None
  }

  const CASTS: seq<string> := ["::text", "::bpchar", "::character varying", "::varchar"]

  predicate EndsWith(s: string, t: string) {
    |t| <= |s| && s[|s| - |t|..] == t
  }

  function TrimSuffix(s: string, t: string): (r: string)
    ensures |r| <= |s|
  {
    if EndsWith(s, t) then s[..|s| - |t|] else s
  }

  function TrimPrefix(s: string, t: string): (r: string)
    ensures |r| <= |s|
  {
    if StartsWith(s, t) then s[|t|..] else s
  }

  /** The first of the casts, from the k-th on, that `s` ends with is taken off. */
  function DropCast(s: string, k: nat): (r: string)
    requires k <= |CASTS|
    decreases |CASTS| - k
  {
    if k == |CASTS| then s
    else if EndsWith(s, CASTS[k]) then Unwrap(TrimSuffix(s, CASTS[k]))
    else DropCast(s, k + 1)
  }

  /** plainCol: a column, possibly in parentheses and cast to text. */
  function PlainCol(s: string): (r: Option<ColRef>) {
    ReadCol(DropCast(Unwrap(TrimSpace(s)), 0))
  }

  /** mentions: a column of `alias` is named in the text from `i` on, outside literals. */
  predicate MentionsFrom(s: string, i: nat, alias: string)
    decreases |s| - i
  {
    if i >= |s| then false
    else if s[i] == '\'' then MentionsFrom(s, NextQuote(s, '\'', i + 1) + 1, alias)
    else
      || ((i == 0 || !IsIdentByte(s[i - 1])) && (At(s, i, alias + ".") || At(s, i, "\"" + alias + "\".")))
      || MentionsFrom(s, i + 1, alias)
  }

  predicate Mentions(s: string, alias: string) {
    MentionsFrom(s, 0, alias)
  }

  // ---- condition and conditions ----

  datatype Kind = Eq | Range | IsNull | NotNull | JoinEq

  /** One predicate on a column of the table: what kind it is, and for a join the other side. */
  datatype Pred = Pred(col: ColRef, kind: Kind, other: Option<ColRef>)

  const OPS: seq<string> := [" = ", " <= ", " >= ", " < ", " > "]

  /** What the two sides of a comparison say about `alias`. */
  function Sides(l: string, r: string, alias: string, isEq: bool): (p: Option<Pred>) {
    var (lc, rc) := (PlainCol(l), PlainCol(r));
    var lHere, rHere := lc.Some? && lc.value.qual == alias, rc.Some? && rc.value.qual == alias;
    if lHere && rc.Some? && !rHere then
      if isEq then Some(Pred(lc.value, JoinEq, rc)) else None
    else if rHere && lc.Some? && !lHere then
      if isEq then Some(Pred(rc.value, JoinEq, lc)) else None
    else if lHere && !Mentions(r, alias) then Some(Pred(lc.value, if isEq then Eq else Range, None))
    else if rHere && !Mentions(l, alias) then Some(Pred(rc.value, if isEq then Eq else Range, None))
    else None
  }

  /** The first comparison operator, from the k-th on, that cuts the text in two. */
  function Comparison(part: string, alias: string, k: nat): (p: Option<Pred>)
    requires k <= |OPS|
    decreases |OPS| - k
  {
    if k == |OPS| then None
    else
      var sides := SplitTop(part, OPS[k]);
      if |sides| == 2 then Sides(sides[0], sides[1], alias, k == 0) else Comparison(part, alias, k + 1)
  }

  function NullTest(col: string, alias: string, kind: Kind): (p: Option<Pred>) {
    var c := PlainCol(col);
    if c.Some? && c.value.qual == alias then Some(Pred(c.value, kind, None)) else None
  }

  /** condition: one conjunct. */
  function Condition(part: string, alias: string): (p: Option<Pred>) {
    if EndsWith(part, " IS NOT NULL") then NullTest(TrimSuffix(part, " IS NOT NULL"), alias, NotNull)
    else if EndsWith(part, " IS NULL") then NullTest(TrimSuffix(part, " IS NULL"), alias, IsNull)
    else
      var flag := NullTest(TrimPrefix(part, "NOT "), alias, Eq);
      if flag.Some? then flag else Comparison(part, alias, 0)
  }

  /** conditions: the predicates of a whole expression. A disjunction counts when each of its branches
      gives exactly one equality, all on one column. */
  function Conditions(expr: string, alias: string): (ps: seq<Pred>)
    decreases |expr|, 2, 0
  {
    var parts := SplitTop(Unwrap(expr), " AND ");
    forall k | 0 <= k < |parts| ensures |parts[k]| <= |expr| { PartLength(Unwrap(expr), " AND ", k); }
    OfParts(parts, alias, |expr|)
  }

  function OfParts(parts: seq<string>, alias: string, bound: nat): (ps: seq<Pred>)
    requires forall k :: 0 <= k < |parts| ==> |parts[k]| <= bound
    decreases bound, 1, |parts|
  {
    if parts == [] then []
    else OfPart(parts[0], alias, bound) + OfParts(parts[1..], alias, bound)
  }

  function OfPart(text: string, alias: string, bound: nat): (ps: seq<Pred>)
    requires |text| <= bound
    decreases bound, 0, 1
  {
    var part := Unwrap(text);
    var ors := SplitTop(part, " OR ");
    if |ors| > 1 then
      forall k | 0 <= k < |ors| ensures |ors[k]| < bound { PartLength(part, " OR ", k); }
      var col := OneColumn(ors, alias, bound, "");
      if col == "" then [] else [Pred(ColRef(alias, col), Eq, None)]
    else
      var p := Condition(part, alias);
      if p.Some? then [p.value] else []
  }

  /** The column every branch puts an equality on; empty when they do not agree. */
  function OneColumn(ors: seq<string>, alias: string, bound: nat, col: string): (c: string)
    requires forall k :: 0 <= k < |ors| ==> |ors[k]| < bound
    decreases bound, 0, 0, |ors|
  {
    if ors == [] then col
    else
      var ps := Conditions(ors[0], alias);
      if |ps| != 1 || ps[0].kind != Eq || (col != "" && ps[0].col.col != col) then ""
      else OneColumn(ors[1..], alias, bound, ps[0].col.col)
  }
}
