/** How many rounds a list of statements needs: exactly when six are enough in every order. */
module SchemaOrder {
  import opened ByteText
  import opened Schema

  // ---- Stages ----

  lemma {:induction false} StagesGrow(start: set<string>, stmts: seq<Stmt>, m: nat, n: nat)
    requires m <= n
    ensures Stage(start, stmts, m) <= Stage(start, stmts, n)
  {
    hide AllAtOnce;
    if m < n { StagesGrow(start, stmts, m, n - 1); }
  }

  /** The stages do not depend on the order. */
  lemma {:induction false} StageOfSame(start: set<string>, a: seq<Stmt>, b: seq<Stmt>, n: nat)
    requires forall s :: s in a <==> s in b
    ensures Stage(start, a, n) == Stage(start, b, n)
  {
    hide AllAtOnce;
    if n > 0 {
      StageOfSame(start, a, b, n - 1);
      AllAtOnceOfSame(Stage(start, a, n - 1), a, b);
    }
  }

  lemma AllAtOnceOfSame(objects: set<string>, a: seq<Stmt>, b: seq<Stmt>)
    requires forall s :: s in a <==> s in b
    ensures AllAtOnce(objects, a) == AllAtOnce(objects, b)
  {
    hide Ready, Made;
    forall o ensures o in AllAtOnce(objects, a) <==> o in AllAtOnce(objects, b) {}
  }

  /** Every statement that six rounds of all at once would find ready is ready after five. */
  ghost predicate SettlesInTime(start: set<string>, stmts: seq<Stmt>) {
    forall s :: s in stmts && !s.comment && Ready(s, Stage(start, stmts, ROUNDS)) ==> Ready(s, Stage(start, stmts, ROUNDS - 1))
  }

  /** Then the run is exact, however long the list and in whatever order. */
  lemma InTimeIsExact(start: set<string>, stmts: seq<Stmt>)
    requires ValidStmts(stmts) && SettlesInTime(start, stmts)
    ensures Exact(start, stmts, RunAll(start, stmts))
  {
    var s, top := RunAll(start, stmts), Stage(start, stmts, ROUNDS);
    RoundsKept(start, stmts, ROUNDS);
    StageBelow(start, stmts, ROUNDS);
    assert Closed(top, stmts) by { InTimeIsClosed(start, stmts); }
    assert s.objects <= top;
    forall x | x in s.pending ensures Fails(x, s.objects) {
      assert Fails(x, Stage(start, stmts, ROUNDS - 1)) && x in stmts;
    }
    StuckIsExact(start, stmts, s);
  }

  lemma InTimeIsClosed(start: set<string>, stmts: seq<Stmt>)
    requires ValidStmts(stmts) && SettlesInTime(start, stmts)
    ensures Closed(Stage(start, stmts, ROUNDS), stmts)
  {
    var before := Stage(start, stmts, ROUNDS - 1);
    forall s | s in stmts && Ready(s, Stage(start, stmts, ROUNDS)) ensures Made(s) <= Stage(start, stmts, ROUNDS) {
      if !s.comment { assert Ready(s, before); }
    }
  }

  // ---- The worst order ----

  /** The first stage, up to the sixth, in which a statement is ready; 7 for one that is in none. */
  ghost function RankFrom(s: Stmt, start: set<string>, stmts: seq<Stmt>, n: nat): nat
    decreases ROUNDS + 1 - n
  {
    if n > ROUNDS then ROUNDS + 1 else if Ready(s, Stage(start, stmts, n)) then n else RankFrom(s, start, stmts, n + 1)
  }

  ghost function Rank(s: Stmt, start: set<string>, stmts: seq<Stmt>): nat {
    RankFrom(s, start, stmts, 0)
  }

  lemma {:induction false} RankMeans(s: Stmt, start: set<string>, stmts: seq<Stmt>, n: nat, k: nat)
    requires n <= k <= ROUNDS && forall i :: 0 <= i < n ==> !Ready(s, Stage(start, stmts, i))
    ensures RankFrom(s, start, stmts, n) > k <==> !Ready(s, Stage(start, stmts, k))
    ensures RankFrom(s, start, stmts, n) >= n
    decreases ROUNDS - n
  {
    hide Stage;
    if Ready(s, Stage(start, stmts, n)) {
      StagesGrow(start, stmts, n, k);
    } else if n < k {
      RankMeans(s, start, stmts, n + 1, k);
    } else {
      RankAtLeast(s, start, stmts, n + 1);
    }
  }

  lemma {:induction false} RankAtLeast(s: Stmt, start: set<string>, stmts: seq<Stmt>, n: nat)
    requires n <= ROUNDS + 1
    ensures RankFrom(s, start, stmts, n) >= n
    decreases ROUNDS + 1 - n
  {
    hide Stage, Ready;
    if n <= ROUNDS { RankAtLeast(s, start, stmts, n + 1); }
  }

  /** A statement ranks above k exactly when it is not ready in stage k. */
  lemma RanksAbove(s: Stmt, start: set<string>, stmts: seq<Stmt>, k: nat)
    requires k <= ROUNDS
    ensures Rank(s, start, stmts) > k <==> !Ready(s, Stage(start, stmts, k))
  {
    RankMeans(s, start, stmts, 0, k);
  }

  /** Each statement comes before all that rank below it. */
  ghost predicate Late(order: seq<Stmt>, start: set<string>, stmts: seq<Stmt>) {
    forall i, j :: 0 <= i < j < |order| ==> Rank(order[i], start, stmts) >= Rank(order[j], start, stmts)
  }

  ghost function InsertLate(x: Stmt, order: seq<Stmt>, start: set<string>, stmts: seq<Stmt>): seq<Stmt> {
    if order == [] || Rank(order[0], start, stmts) <= Rank(x, start, stmts) then [x] + order
    else [order[0]] + InsertLate(x, order[1..], start, stmts)
  }

  ghost function SortLate(xs: seq<Stmt>, start: set<string>, stmts: seq<Stmt>): seq<Stmt> {
    if xs == [] then [] else InsertLate(xs[0], SortLate(xs[1..], start, stmts), start, stmts)
  }

  lemma {:induction false} InsertKeepsLate(x: Stmt, order: seq<Stmt>, start: set<string>, stmts: seq<Stmt>)
    requires Late(order, start, stmts)
    ensures Late(InsertLate(x, order, start, stmts), start, stmts)
    ensures multiset(InsertLate(x, order, start, stmts)) == multiset{x} + multiset(order)
    decreases |order|
  {
    hide Rank;
    var r := InsertLate(x, order, start, stmts);
    if order != [] && !(Rank(order[0], start, stmts) <= Rank(x, start, stmts)) {
      var rest := order[1..];
      assert order == [order[0]] + rest;
      InsertKeepsLate(x, rest, start, stmts);
      var t := InsertLate(x, rest, start, stmts);
      forall j | 0 <= j < |t| ensures Rank(order[0], start, stmts) >= Rank(t[j], start, stmts) {
        assert t[j] in multiset(t);
        assert t[j] == x || t[j] in rest;
      }
    }
  }

  lemma {:induction false} SortIsLate(xs: seq<Stmt>, start: set<string>, stmts: seq<Stmt>)
    ensures Late(SortLate(xs, start, stmts), start, stmts) && multiset(SortLate(xs, start, stmts)) == multiset(xs)
  {
    hide InsertLate, Rank;
    if xs != [] {
      SortIsLate(xs[1..], start, stmts);
      InsertKeepsLate(xs[0], SortLate(xs[1..], start, stmts), start, stmts);
      assert xs == [xs[0]] + xs[1..];
    }
  }

  /** Round k over a late list: nothing that ranks above k runs, for what it waits for comes after it. */
  ghost predicate LateKept(start: set<string>, stmts: seq<Stmt>, k: nat, objects: set<string>, pending: seq<Stmt>, r: State) {
    && r.objects <= Stage(start, stmts, k + 1) && Late(r.pending, start, stmts)
    && (forall s :: s in r.pending ==> s in pending)
    && (forall s :: s in pending && !s.comment && Rank(s, start, stmts) > k ==> s in r.pending)
    && ((forall s :: s in pending ==> Rank(s, start, stmts) > k) ==> r.objects == objects)
  }

  lemma {:induction false} LateRound(start: set<string>, stmts: seq<Stmt>, k: nat, objects: set<string>, pending: seq<Stmt>)
    requires k < ROUNDS && objects <= Stage(start, stmts, k) && Late(pending, start, stmts)
    requires forall s :: s in pending ==> s in stmts
    ensures LateKept(start, stmts, k, objects, pending, Round(objects, pending))
  {
    hide Rank, Stage, LateKept;
    if pending == [] {
      LateNothing(start, stmts, k, objects);
    } else {
      var n := |pending| - 1;
      var init, last := pending[..n], pending[n];
      LateRound(start, stmts, k, objects, init);
      assert pending == init + [last];
      forall s | s in init ensures Rank(s, start, stmts) >= Rank(last, start, stmts) {
        var i: nat :| i < n && init[i] == s;
        assert pending[i] == s;
      }
      LateStep(start, stmts, k, objects, init, last, Round(objects, init));
    }
  }

  lemma LateNothing(start: set<string>, stmts: seq<Stmt>, k: nat, objects: set<string>)
    requires objects <= Stage(start, stmts, k)
    ensures LateKept(start, stmts, k, objects, [], State(objects, []))
  {
    hide Rank, Stage;
    StagesGrow(start, stmts, k, k + 1);
  }

  /** One more statement, which ranks no higher than those before it. */
  lemma LateStep(start: set<string>, stmts: seq<Stmt>, k: nat, objects: set<string>, init: seq<Stmt>, last: Stmt, was: State)
    requires k < ROUNDS && last in stmts && objects <= Stage(start, stmts, k)
    requires LateKept(start, stmts, k, objects, init, was)
    requires forall s :: s in init ==> Rank(s, start, stmts) >= Rank(last, start, stmts)
    ensures
      var o := Run(last, was.objects);
      LateKept(start, stmts, k, objects, init + [last],
               State(if o == Ok then was.objects + Made(last) else was.objects,
                     if o == Ok || Harmless(last, o) then was.pending else was.pending + [last]))
  {
    RanksAbove(last, start, stmts, k);
    hide Rank, Late;
    if Rank(last, start, stmts) > k {
      assert !Ready(last, was.objects);
    } else {
      assert Made(last) <= Stage(start, stmts, k + 1);
    }
    assert Late(was.pending + [last], start, stmts) by { LateSnoc(start, stmts, was.pending, last); }
    hide Stage;
  }

  lemma LateSnoc(start: set<string>, stmts: seq<Stmt>, order: seq<Stmt>, last: Stmt)
    requires Late(order, start, stmts) && forall s :: s in order ==> Rank(s, start, stmts) >= Rank(last, start, stmts)
    ensures Late(order + [last], start, stmts)
  {
    hide Rank;
  }

  /** After k rounds of a late order, all that rank k or above are still pending. */
  lemma {:induction false} LateRounds(start: set<string>, stmts: seq<Stmt>, order: seq<Stmt>, k: nat)
    requires k <= ROUNDS && Late(order, start, stmts) && forall s :: s in order <==> s in stmts
    ensures Waiting(start, stmts, k, Rounds(State(start, order), k))
  {
    hide Round, Late, Waiting;
    if k == 0 {
      WaitingStart(start, stmts, order);
    } else {
      LateRounds(start, stmts, order, k - 1);
      WaitingRound(start, stmts, k - 1, Rounds(State(start, order), k - 1));
    }
  }

  ghost predicate Waiting(start: set<string>, stmts: seq<Stmt>, k: nat, r: State) {
    && r.objects <= Stage(start, stmts, k) && Late(r.pending, start, stmts)
    && (forall s :: s in r.pending ==> s in stmts)
    && (forall s :: s in stmts && !s.comment && Rank(s, start, stmts) >= k ==> s in r.pending)
  }

  lemma WaitingStart(start: set<string>, stmts: seq<Stmt>, order: seq<Stmt>)
    requires Late(order, start, stmts) && forall s :: s in order <==> s in stmts
    ensures Waiting(start, stmts, 0, State(start, order))
  {
    hide Rank, Late;
  }

  lemma WaitingRound(start: set<string>, stmts: seq<Stmt>, k: nat, r: State)
    requires k < ROUNDS && Waiting(start, stmts, k, r)
    ensures Waiting(start, stmts, k + 1, Round(r.objects, r.pending))
  {
    hide Rank, Stage, Late, Round;
    LateRound(start, stmts, k, r.objects, r.pending);
  }

  /** The first statement of a late list is the last to be ready, so the one batch fails. */
  lemma LateBatch(start: set<string>, order: seq<Stmt>)
    requires 0 < |order| <= BATCH && !Ready(order[0], start)
    ensures Batches(start, order) == State(start, order)
  {
    var n := |order|;
    assert order[..n] == order && order[n..] == [];
    assert order[..1][..0] == [] && order[..1][0] == order[0];
    BatchFails(start, order, 1);
  }

  /** A statement that is ready in the sixth stage and not before is left behind by a late order. */
  lemma LateIsInexact(start: set<string>, stmts: seq<Stmt>, order: seq<Stmt>, s: Stmt)
    requires |order| <= BATCH && Late(order, start, stmts) && forall x :: x in order <==> x in stmts
    requires s in stmts && !s.comment && Rank(s, start, stmts) == ROUNDS
    ensures !Exact(start, order, RunAll(start, order))
  {
    hide Late;
    assert Rank(order[0], start, stmts) > 0 by { FirstIsLatest(start, stmts, order, s); }
    RanksAbove(order[0], start, stmts, 0);
    LateBatch(start, order);
    LateRounds(start, stmts, order, ROUNDS);
    var r := RunAll(start, order);
    assert s in r.pending;
    RanksAbove(s, start, stmts, ROUNDS);
    StageOfSame(start, order, stmts, ROUNDS);
    StageBelow(start, order, ROUNDS);
    hide Stage, Rank, Rounds, Batches;
    if IsLeast(r.objects, start, order) {
      assert Stage(start, order, ROUNDS) <= r.objects;
    }
  }

  lemma FirstIsLatest(start: set<string>, stmts: seq<Stmt>, order: seq<Stmt>, s: Stmt)
    requires Late(order, start, stmts) && s in order
    ensures Rank(order[0], start, stmts) >= Rank(s, start, stmts)
  {
    hide Rank;
    var i: nat :| i < |order| && order[i] == s;
  }

  ghost predicate Reordered(order: seq<Stmt>, stmts: seq<Stmt>) {
    multiset(order) == multiset(stmts)
  }

  lemma SameStatements(order: seq<Stmt>, stmts: seq<Stmt>)
    requires Reordered(order, stmts)
    ensures |order| == |stmts| && forall s :: s in order <==> s in stmts
  {
    assert |multiset(order)| == |order| && |multiset(stmts)| == |stmts|;
    forall s ensures s in order <==> s in stmts {
      assert s in order <==> s in multiset(order);
      assert s in stmts <==> s in multiset(stmts);
    }
  }

  /** Up to a hundred statements are copied exactly in whatever order they come, if and only if each that six
      rounds of all at once would find ready is ready after five. */
  lemma ExactInEveryOrderIff(start: set<string>, stmts: seq<Stmt>)
    requires ValidStmts(stmts) && |stmts| <= BATCH
    ensures (forall order :: Reordered(order, stmts) ==> Exact(start, order, RunAll(start, order)))
      <==> SettlesInTime(start, stmts)
  {
    hide Exact, Stage, Rank;
    if SettlesInTime(start, stmts) {
      forall order | Reordered(order, stmts) ensures Exact(start, order, RunAll(start, order)) {
        SameStatements(order, stmts);
        StageOfSame(start, order, stmts, ROUNDS);
        StageOfSame(start, order, stmts, ROUNDS - 1);
        InTimeIsExact(start, order);
      }
    } else {
      var s :| s in stmts && !s.comment && Ready(s, Stage(start, stmts, ROUNDS)) && !Ready(s, Stage(start, stmts, ROUNDS - 1));
      RanksAbove(s, start, stmts, ROUNDS);
      RanksAbove(s, start, stmts, ROUNDS - 1);
      var order := SortLate(stmts, start, stmts);
      SortIsLate(stmts, start, stmts);
      SameStatements(order, stmts);
      LateIsInexact(start, stmts, order, s);
      assert Reordered(order, stmts);
    }
  }

  // ---- Where six rounds are not enough ----

  /** The i-th of a chain of objects, each needing the one before. */
  function Name(i: nat): string {
    seq(i, _ => 'x')
  }

  function Link(i: nat): Stmt {
    Stmt("", if i == 0 then {} else {Name(i - 1)}, Some(Name(i)), false)
  }

  /** The links k to n - 1, last first: each comes before the one it needs. */
  function Chain(n: nat, k: nat): seq<Stmt>
    requires k <= n
  {
    seq(n - k, i requires 0 <= i < n - k => Link(n - 1 - i))
  }

  function Names(k: nat): set<string> {
    set i | 0 <= i < k :: Name(i)
  }

  lemma NameIn(i: nat, k: nat)
    ensures Name(i) in Names(k) <==> i < k
  {
    assert |Name(i)| == i;
    if Name(i) in Names(k) {
      var j: nat :| j < k && Name(j) == Name(i);
      assert |Name(j)| == j;
    }
  }

  /** All but the last of a chain fail, for want of it. */
  lemma {:induction false} ChainFails(n: nat, k: nat, m: nat)
    requires k < n && m <= n - k - 1
    ensures Round(Names(k), Chain(n, k)[..m]) == State(Names(k), Chain(n, k)[..m])
  {
    if m > 0 {
      ChainFails(n, k, m - 1);
      assert Chain(n, k)[..m][..m - 1] == Chain(n, k)[..m - 1] && Chain(n, k)[..m][m - 1] == Link(n - m);
      NameIn(n - m - 1, k);
    }
  }

  lemma ChainRound(n: nat, k: nat)
    requires k < n
    ensures Round(Names(k), Chain(n, k)) == State(Names(k + 1), Chain(n, k + 1))
  {
    var c := Chain(n, k);
    ChainFails(n, k, n - k - 1);
    assert c[|c| - 1] == Link(k) && c[..|c| - 1] == Chain(n, k + 1);
    NameIn(k, k);
    if k > 0 { NameIn(k - 1, k); }
    assert Names(k + 1) == Names(k) + {Name(k)};
  }

  lemma {:induction false} ChainRounds(n: nat, k: nat)
    requires k <= n
    ensures Rounds(State({}, Chain(n, 0)), k) == State(Names(k), Chain(n, k))
  {
    if k == 0 {
      assert Names(0) == {};
    } else {
      ChainRounds(n, k - 1);
      ChainRound(n, k - 1);
    }
  }

  lemma ChainBatch(n: nat)
    requires 2 <= n <= BATCH
    ensures Batches({}, Chain(n, 0)) == State({}, Chain(n, 0))
  {
    var c := Chain(n, 0);
    assert c[..n] == c && c[n..] == [];
    assert c[..1][..0] == [] && c[..1][0] == Link(n - 1);
    BatchFails({}, c, 1);
  }

  lemma {:induction false} ChainReached(n: nat, objects: set<string>, i: nat)
    requires Closed(objects, Chain(n, 0)) && i < n
    ensures Name(i) in objects
  {
    if i > 0 { ChainReached(n, objects, i - 1); }
    var s := Chain(n, 0)[n - 1 - i];
    assert s == Link(i) && s in Chain(n, 0) && Ready(s, objects);
    assert Name(i) in Made(s) && Made(s) <= objects;
  }

  /** The documentation has failed statements retried until no more succeed. A chain of seven or more in the
      wrong order is given up after six rounds: all but the first six links fail, and none should. */
  lemma LongChainGivenUp(n: nat, least: set<string>)
    requires ROUNDS < n <= BATCH && IsLeast(least, {}, Chain(n, 0))
    ensures Rounds(Batches({}, Chain(n, 0)), ROUNDS) == State(Names(ROUNDS), Chain(n, ROUNDS))
    ensures |Chain(n, ROUNDS)| == n - ROUNDS > 0 && forall s :: s in Chain(n, 0) ==> !Fails(s, least)
  {
    ChainBatch(n);
    ChainRounds(n, ROUNDS);
    forall s | s in Chain(n, 0) ensures !Fails(s, least) {
      var j: nat :| j < n && Chain(n, 0)[j] == s;
      assert s == Link(n - 1 - j);
      if j < n - 1 { ChainReached(n, least, n - 2 - j); }
      assert Ready(s, least);
    }
  }
}
