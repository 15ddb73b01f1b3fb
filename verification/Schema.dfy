/** Copying a schema: statements run in batches, then one by one in rounds until no more succeed. */
module Schema {
  import opened ByteText

  /** A DDL statement: what it needs to exist, what it makes, and whether it is only a comment. */
  datatype Stmt = Stmt(text: string, needs: set<string>, makes: Option<string>, comment: bool)

  predicate ValidStmts(stmts: seq<Stmt>) {
    forall s :: s in stmts && s.comment ==> s.makes.None?
  }

  datatype Outcome = Ok | AlreadyThere | Missing

  predicate Ready(s: Stmt, objects: set<string>) {
    s.needs <= objects
  }

  function Run(s: Stmt, objects: set<string>): Outcome {
    if !Ready(s, objects) then Missing
    else if s.makes.Some? && s.makes.value in objects then AlreadyThere
    else Ok
  }

  function Made(s: Stmt): set<string> {
    if s.makes.Some? then {s.makes.value} else {}
  }

  /** harmless: the object is there already, or the statement only sets a comment. */
  predicate Harmless(s: Stmt, o: Outcome) {
    o == AlreadyThere || s.comment
  }

  // ---- The least fixpoint ----

  /** Nothing a statement could still make is missing. */
  predicate Closed(objects: set<string>, stmts: seq<Stmt>) {
    forall s :: s in stmts && Ready(s, objects) ==> Made(s) <= objects
  }

  /** `objects` are among those of every closed schema that has `start`. */
  ghost predicate Below(objects: set<string>, start: set<string>, stmts: seq<Stmt>) {
    forall c: set<string> :: start <= c && Closed(c, stmts) ==> objects <= c
  }

  ghost predicate IsLeast(objects: set<string>, start: set<string>, stmts: seq<Stmt>) {
    start <= objects && Closed(objects, stmts) && Below(objects, start, stmts)
  }

  /** What `n` rounds of running everything at once would make. */
  ghost function Stage(start: set<string>, stmts: seq<Stmt>, n: nat): set<string> {
    if n == 0 then start else AllAtOnce(Stage(start, stmts, n - 1), stmts)
  }

  /** The schema with all that is ready in it made. */
  ghost function AllAtOnce(objects: set<string>, stmts: seq<Stmt>): (r: set<string>)
    ensures objects <= r
    ensures forall s :: s in stmts && Ready(s, objects) ==> Made(s) <= r
  {
    objects + (set s, o | s in stmts && Ready(s, objects) && o in Made(s) :: o)
  }

  /** Within every closed schema that has the start. */
  lemma {:induction false} StageBelow(start: set<string>, stmts: seq<Stmt>, n: nat)
    ensures start <= Stage(start, stmts, n) && Below(Stage(start, stmts, n), start, stmts)
  {
    hide AllAtOnce, Closed;
    if n > 0 {
      StageBelow(start, stmts, n - 1);
      var before := Stage(start, stmts, n - 1);
      forall c: set<string> | start <= c && Closed(c, stmts) ensures AllAtOnce(before, stmts) <= c {
        StaysWithin(before, stmts, c);
      }
    }
  }

  lemma StaysWithin(objects: set<string>, stmts: seq<Stmt>, c: set<string>)
    requires objects <= c && Closed(c, stmts)
    ensures AllAtOnce(objects, stmts) <= c
  {
    forall s | s in stmts && Ready(s, objects) ensures Made(s) <= c {
      assert Ready(s, c);
    }
  }

  /** The statements a schema leaves behind: no comment, and not ready. */
  predicate Fails(s: Stmt, objects: set<string>) {
    !s.comment && !Ready(s, objects)
  }

  /** There is only one least schema. */
  lemma LeastIsUnique(a: set<string>, b: set<string>, start: set<string>, stmts: seq<Stmt>)
    requires IsLeast(a, start, stmts) && IsLeast(b, start, stmts)
    ensures a == b
  {
    assert a <= b && b <= a;
  }

  // ---- What a run does, as a function of the schema it starts from ----

  const BATCH: nat := 100
  const ROUNDS: nat := 6

  datatype State = State(objects: set<string>, pending: seq<Stmt>)

  /** The schema after a batch, all of whose statements must run. */
  function Batch(objects: set<string>, b: seq<Stmt>): Option<set<string>> {
    if b == [] then Some(objects)
    else
      var before := Batch(objects, b[..|b| - 1]);
      if before.Some? && Run(b[|b| - 1], before.value) == Ok then Some(before.value + Made(b[|b| - 1])) else None
  }

  function Batches(objects: set<string>, stmts: seq<Stmt>): State
    decreases |stmts|
  {
    if stmts == [] then State(objects, [])
    else
      var n := if BATCH < |stmts| then BATCH else |stmts|;
      var done := Batch(objects, stmts[..n]);
      var rest := Batches(if done.Some? then done.value else objects, stmts[n..]);
      State(rest.objects, (if done.Some? then [] else stmts[..n]) + rest.pending)
  }

  function Round(objects: set<string>, pending: seq<Stmt>): State {
    if pending == [] then State(objects, [])
    else
      var before, s := Round(objects, pending[..|pending| - 1]), pending[|pending| - 1];
      var o := Run(s, before.objects);
      State(if o == Ok then before.objects + Made(s) else before.objects,
            if o == Ok || Harmless(s, o) then before.pending else before.pending + [s])
  }

  function Rounds(s: State, n: nat): State {
    if n == 0 then s else var before := Rounds(s, n - 1); Round(before.objects, before.pending)
  }

  /** Another round would change nothing. */
  predicate Stuck(s: State) {
    Round(s.objects, s.pending) == s
  }

  lemma {:induction false} BatchFails(objects: set<string>, b: seq<Stmt>, i: nat)
    requires i <= |b| && Batch(objects, b[..i]).None?
    ensures Batch(objects, b).None?
    decreases |b| - i
  {
    if i < |b| {
      assert b[..i + 1][..i] == b[..i];
      BatchFails(objects, b, i + 1);
    } else {
      assert b[..i] == b;
    }
  }

  lemma KeptIffFails(s: Stmt, objects: set<string>)
    ensures Run(s, objects) != Ok && !Harmless(s, Run(s, objects)) <==> Fails(s, objects)
  {
  }

  /** A round that drops nothing changes nothing, and one drops nothing exactly when every statement fails. */
  lemma {:induction false} StuckIffFails(objects: set<string>, pending: seq<Stmt>)
    ensures |Round(objects, pending).pending| <= |pending|
    ensures |Round(objects, pending).pending| == |pending| ==> Round(objects, pending) == State(objects, pending)
    ensures |Round(objects, pending).pending| == |pending| <==> forall s :: s in pending ==> Fails(s, objects)
  {
    if pending != [] {
      var init, last := pending[..|pending| - 1], pending[|pending| - 1];
      assert pending == init + [last];
      StuckIffFails(objects, init);
      hide Fails;
      assert Run(last, objects) != Ok && !Harmless(last, Run(last, objects)) <==> Fails(last, objects) by { KeptIffFails(last, objects); }
      assert (forall s :: s in pending ==> Fails(s, objects)) <==> (forall s :: s in init ==> Fails(s, objects)) && Fails(last, objects);
    }
  }

  lemma {:induction false} StuckStays(s: State, n: nat, m: nat)
    requires n <= m && Stuck(Rounds(s, n))
    ensures Rounds(s, m) == Rounds(s, n)
  {
    if n < m { StuckStays(s, n, m - 1); }
  }

  /** A whole run: the first pass, then at most six rounds. */
  function RunAll(start: set<string>, stmts: seq<Stmt>): State {
    Rounds(Batches(start, stmts), ROUNDS)
  }

  // ---- What every step keeps ----

  /** A statement is settled: it ran, or its object is there. */
  predicate Settled(s: Stmt, objects: set<string>) {
    Ready(s, objects) && Made(s) <= objects
  }

  /** Every statement is settled, a comment, or still pending. */
  ghost predicate Accounted(stmts: seq<Stmt>, pending: seq<Stmt>, objects: set<string>) {
    && (forall s :: s in stmts ==> Settled(s, objects) || s.comment || s in pending)
    && (forall s :: s in pending ==> s in stmts)
  }

  /** From `start`, nothing is lost and nothing is made that a closed schema would not have. */
  ghost predicate Kept(start: set<string>, stmts: seq<Stmt>, s: State) {
    start <= s.objects && Below(s.objects, start, stmts) && Accounted(stmts, s.pending, s.objects)
  }

  lemma {:induction false} BatchKept(objects: set<string>, b: seq<Stmt>)
    requires Batch(objects, b).Some?
    ensures Kept(objects, b, State(Batch(objects, b).value, []))
  {
    if b != [] {
      var init, last := b[..|b| - 1], b[|b| - 1];
      BatchKept(objects, init);
      assert b == init + [last];
      var was := Batch(objects, init).value;
      forall c: set<string> | objects <= c && Closed(c, b) ensures was + Made(last) <= c {
        assert Closed(c, init) && last in b;
      }
    }
  }

  /** One batch after another. */
  lemma KeptAfter(start: set<string>, a: seq<Stmt>, s: State, b: seq<Stmt>, t: State)
    requires Kept(start, a, s) && Kept(s.objects, b, t)
    ensures Kept(start, a + b, State(t.objects, s.pending + t.pending))
  {
    forall c: set<string> | start <= c && Closed(c, a + b) ensures t.objects <= c {
      assert Closed(c, a) && Closed(c, b);
    }
  }

  lemma {:induction false} BatchesKept(objects: set<string>, stmts: seq<Stmt>)
    ensures Kept(objects, stmts, Batches(objects, stmts))
    decreases |stmts|
  {
    if stmts != [] {
      hide Kept, Batch;
      var n := if BATCH < |stmts| then BATCH else |stmts|;
      var b, rest := stmts[..n], stmts[n..];
      var done := Batch(objects, b);
      var first := if done.Some? then State(done.value, []) else State(objects, b);
      assert Kept(objects, b, first) by {
        if done.Some? { BatchKept(objects, b); } else { NothingRan(objects, b); }
      }
      BatchesKept(first.objects, rest);
      KeptAfter(objects, b, first, rest, Batches(first.objects, rest));
      assert b + rest == stmts;
    } else {
      NothingRan(objects, stmts);
    }
  }

  lemma NothingRan(objects: set<string>, b: seq<Stmt>)
    ensures Kept(objects, b, State(objects, b))
  {
  }

  /** A round: what stays pending failed, what was pending is accounted for, and the schema grows within
      every closed one. */
  lemma {:induction false} RoundKept(objects: set<string>, pending: seq<Stmt>)
    ensures Kept(objects, pending, Round(objects, pending))
    ensures forall s :: s in Round(objects, pending).pending ==> Fails(s, objects)
  {
    if pending != [] {
      var init, last := pending[..|pending| - 1], pending[|pending| - 1];
      RoundKept(objects, init);
      assert pending == init + [last];
      var was, now := Round(objects, init), Round(objects, pending);
      assert was.objects <= now.objects <= was.objects + Made(last);
      forall c: set<string> | objects <= c && Closed(c, pending) ensures now.objects <= c {
        assert Closed(c, init) && last in pending;
      }
    }
  }

  lemma RoundAfter(start: set<string>, stmts: seq<Stmt>, s: State)
    requires ValidStmts(stmts) && Kept(start, stmts, s)
    ensures Kept(start, stmts, Round(s.objects, s.pending))
    ensures forall x :: x in stmts && Ready(x, s.objects) ==> Made(x) <= Round(s.objects, s.pending).objects
  {
    hide Round;
    var t := Round(s.objects, s.pending);
    RoundKept(s.objects, s.pending);
    forall c: set<string> | start <= c && Closed(c, stmts) ensures t.objects <= c {
      assert s.objects <= c && Closed(c, s.pending);
    }
  }

  lemma StageGrows(start: set<string>, stmts: seq<Stmt>, n: nat, was: set<string>, now: set<string>)
    requires Stage(start, stmts, n) <= was <= now
    requires forall s :: s in stmts && Ready(s, was) ==> Made(s) <= now
    ensures Stage(start, stmts, n + 1) <= now
  {
  }

  /** After n rounds at least everything n rounds of all at once would make is there, and what is pending is
      not ready in what n - 1 would make. */
  ghost predicate Reached(start: set<string>, stmts: seq<Stmt>, n: nat, s: State) {
    && Kept(start, stmts, s) && Stage(start, stmts, n) <= s.objects
    && (n > 0 ==> forall x :: x in s.pending ==> Fails(x, Stage(start, stmts, n - 1)))
  }

  lemma ReachedStep(start: set<string>, stmts: seq<Stmt>, n: nat, s: State)
    requires ValidStmts(stmts) && Reached(start, stmts, n, s)
    ensures Reached(start, stmts, n + 1, Round(s.objects, s.pending))
  {
    hide Round, Stage, Below, ValidStmts, Accounted;
    var t := Round(s.objects, s.pending);
    RoundAfter(start, stmts, s);
    RoundKept(s.objects, s.pending);
    StageGrows(start, stmts, n, s.objects, t.objects);
  }

  lemma {:induction false} RoundsKept(start: set<string>, stmts: seq<Stmt>, n: nat)
    requires ValidStmts(stmts)
    ensures Reached(start, stmts, n, Rounds(Batches(start, stmts), n))
  {
    if n == 0 {
      BatchesKept(start, stmts);
    } else {
      hide Round, Reached, Batches, ValidStmts;
      RoundsKept(start, stmts, n - 1);
      ReachedStep(start, stmts, n - 1, Rounds(Batches(start, stmts), n - 1));
    }
  }

  // ---- When a run is exact ----

  /** The database is the least schema closed under the statements, and the failed ones are exactly those it
      has no place for. */
  ghost predicate Exact(start: set<string>, stmts: seq<Stmt>, s: State) {
    IsLeast(s.objects, start, stmts) && forall x :: x in stmts ==> (x in s.pending <==> Fails(x, s.objects))
  }

  lemma StuckIsExact(start: set<string>, stmts: seq<Stmt>, s: State)
    requires ValidStmts(stmts) && Kept(start, stmts, s) && forall x :: x in s.pending ==> Fails(x, s.objects)
    ensures Exact(start, stmts, s)
  {
  }

  /** A run that ends because nothing is pending or a round makes no progress is exact. */
  lemma ExactWhenStuck(start: set<string>, stmts: seq<Stmt>, n: nat)
    requires ValidStmts(stmts) && n <= ROUNDS && Stuck(Rounds(Batches(start, stmts), n))
    ensures Exact(start, stmts, RunAll(start, stmts))
  {
    var first := Batches(start, stmts);
    var s := Rounds(first, n);
    StuckStays(first, n, ROUNDS);
    RoundsKept(start, stmts, n);
    StuckIffFails(s.objects, s.pending);
    StuckIsExact(start, stmts, s);
  }

  // ---- The code ----

  class Database {
    var objects: set<string>

    constructor (start: set<string>)
      ensures objects == start
    {
      objects := start;
    }

    method Exec(s: Stmt) returns (o: Outcome)
      modifies this
      ensures o == Run(s, old(objects))
      ensures objects == if o == Ok then old(objects) + Made(s) else old(objects)
    {
      o := Run(s, objects);
      if o == Ok {
        objects := objects + Made(s);
      }
    }

    /** Several statements in one round trip: all of them, or none. */
    method ExecBatch(b: seq<Stmt>) returns (ok: bool)
      modifies this
      ensures Batch(old(objects), b) == if ok then Some(objects) else None
      ensures !ok ==> objects == old(objects)
    {
      var now, i := objects, 0;
      while i < |b|
        invariant 0 <= i <= |b| && objects == old(objects) && Batch(objects, b[..i]) == Some(now)
      {
        assert b[..i + 1][..i] == b[..i];
        if Run(b[i], now) != Ok {
          BatchFails(objects, b, i + 1);
          return false;
        }
        now := now + Made(b[i]);
        i := i + 1;
      }
      assert b[..i] == b;
      objects := now;
      return true;
    }
  }

  /** The first pass. */
  method RunBatches(db: Database, stmts: seq<Stmt>) returns (pending: seq<Stmt>)
    modifies db
    ensures State(db.objects, pending) == Batches(old(db.objects), stmts)
  {
    hide Batches, Batch;
    pending := [];
    var i := 0;
    assert stmts[0..] == stmts;
    while i < |stmts|
      invariant 0 <= i <= |stmts|
      invariant Batches(old(db.objects), stmts) == Add(pending, Batches(db.objects, stmts[i..]))
    {
      var end := if i + BATCH < |stmts| then i + BATCH else |stmts|;
      ghost var was := db.objects;
      var ok := db.ExecBatch(stmts[i..end]);
      BatchesStep(was, stmts, i, end, pending);
      if !ok {
        pending := pending + stmts[i..end];
      }
      i := end;
    }
    assert stmts[i..] == [];
    NoBatches(db.objects);
  }

  function Add(pending: seq<Stmt>, s: State): State {
    State(s.objects, pending + s.pending)
  }

  lemma BatchesStep(objects: set<string>, stmts: seq<Stmt>, i: nat, end: nat, pending: seq<Stmt>)
    requires i < |stmts| && end == if i + BATCH < |stmts| then i + BATCH else |stmts|
    ensures
      var b := stmts[i..end];
      var done := Batch(objects, b);
      Add(pending, Batches(objects, stmts[i..])) ==
        if done.Some? then Add(pending, Batches(done.value, stmts[end..]))
        else Add(pending + b, Batches(objects, stmts[end..]))
  {
    hide Batch;
    assert stmts[i..][..end - i] == stmts[i..end] && stmts[i..][end - i..] == stmts[end..];
  }

  lemma NoBatches(objects: set<string>)
    ensures Batches(objects, []) == State(objects, [])
  {
  }

  /** One round over what is pending. */
  method RunRound(db: Database, pending: seq<Stmt>) returns (next: seq<Stmt>)
    modifies db
    ensures State(db.objects, next) == Round(old(db.objects), pending)
  {
    next := [];
    var i := 0;
    while i < |pending|
      invariant 0 <= i <= |pending| && State(db.objects, next) == Round(old(db.objects), pending[..i])
    {
      assert pending[..i + 1][..i] == pending[..i];
      var o := db.Exec(pending[i]);
      if o != Ok && !Harmless(pending[i], o) {
        next := next + [pending[i]];
      }
      i := i + 1;
    }
    assert pending[..i] == pending;
  }

  /** execSchema: what could not be created is left in `failed`. Every statement ran, is a comment or failed,
      and nothing is made that is not in the least schema. */
  method ExecSchema(db: Database, stmts: seq<Stmt>) returns (failed: seq<Stmt>)
    requires ValidStmts(stmts)
    modifies db
    ensures State(db.objects, failed) == RunAll(old(db.objects), stmts)
    ensures Kept(old(db.objects), stmts, State(db.objects, failed))
    ensures failed == [] ==> Exact(old(db.objects), stmts, State(db.objects, failed))
  {
    hide Kept, Round, Batches, Exact, ValidStmts;
    ghost var start, first := db.objects, Batches(db.objects, stmts);
    var pending := RunBatches(db, stmts);
    var round := 0;
    while round < ROUNDS && pending != []
      invariant 0 <= round <= ROUNDS && State(db.objects, pending) == Rounds(first, round)
    {
      ghost var was := db.objects;
      var next := RunRound(db, pending);
      StuckIffFails(was, pending);
      if |next| == |pending| {
        break;
      }
      pending := next;
      round := round + 1;
    }
    if round < ROUNDS {
      StuckIffFails(db.objects, pending);
      StuckStays(first, round, ROUNDS);
    }
    failed := pending;
    RoundsKept(start, stmts, ROUNDS);
    if failed == [] {
      StuckIsExact(start, stmts, State(db.objects, failed));
    }
  }
}
