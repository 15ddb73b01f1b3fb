/** The schedule of table and index insights: start, finish and take, in any order. */
module Insights {
  import opened ByteText

  const SECOND: int := 1_000_000_000
  const MAX_INTERVAL: int := 4 * 60 * 60 * SECOND
  const FIRST_DELAY: int := 3 * 60 * SECOND
  const SLOW_RUN: int := 30 * SECOND

  /** `next` is None until the first call; results are numbered. */
  datatype State = State(running: bool, next: Option<int>, interval: int, ready: Option<nat>)

  const INITIAL := State(false, None, 0, None)

  function Min(a: int, b: int): int { if a < b then a else b }

  /** start: whether a run begins now. */
  function Started(s: State, now: int, every: int): (r: (bool, State)) {
    if s.running then (false, s)
    else
      var next := if s.next.Some? then s.next.value else if every < FIRST_DELAY then now else now + FIRST_DELAY;
      if now < next then (false, s.(next := Some(next))) else (true, s.(next := Some(next), running := true))
  }

  /** The interval after a run: doubled by a slow one, back to the default after a quick one. */
  function NextInterval(interval: int, took: int, every: int): int {
    if took > SLOW_RUN then Min((if interval == 0 then every else interval) * 2, MAX_INTERVAL) else every
  }

  function Finished(s: State, res: Option<nat>, took: int, every: int, now: int): State {
    var interval := NextInterval(s.interval, took, every);
    State(false, Some(now + interval), interval, if res.Some? then res else s.ready)
  }

  function Taken(s: State): (Option<nat>, State) {
    (s.ready, s.(ready := None))
  }

  /** The state and its three methods, each atomic under the mutex. */
  class InsightsState {
    var running: bool
    var next: Option<int>
    var interval: int
    var ready: Option<nat>

    ghost function Value(): State
      reads this
    {
      State(running, next, interval, ready)
    }

    constructor ()
      ensures Value() == INITIAL
    {
      running, next, interval, ready := false, None, 0, None;
    }

    method Start(now: int, every: int) returns (ok: bool)
      modifies this
      ensures (ok, Value()) == Started(old(Value()), now, every)
    {
      if running {
        return false;
      }
      if next.None? {
        next := Some(now + FIRST_DELAY);
        if every < FIRST_DELAY {
          next := Some(now);
        }
      }
      if now < next.value {
        return false;
      }
      running := true;
      return true;
    }

    method Finish(res: Option<nat>, took: int, every: int, now: int)
      modifies this
      ensures Value() == Finished(old(Value()), res, took, every, now)
    {
      running := false;
      if interval == 0 {
        interval := every;
      }
      if took > SLOW_RUN {
        interval := Min(interval * 2, MAX_INTERVAL);
      } else {
        interval := every;
      }
      next := Some(now + interval);
      if res.Some? {
        ready := res;
      }
    }

    method Take() returns (r: Option<nat>)
      modifies this
      ensures (r, Value()) == Taken(old(Value()))
    {
      r := ready;
      ready := None;
    }
  }

  // ---- Every interleaving ----

  datatype Step = Start(now: int) | Finish(res: Option<nat>, took: int, now: int) | Take

  function Apply(s: State, x: Step, every: int): State {
    match x
    case Start(now) => Started(s, now, every).1
    case Finish(res, took, now) => Finished(s, res, took, every, now)
    case Take => Taken(s).1
  }

  function After(xs: seq<Step>, every: int): (s: State) {
    if xs == [] then INITIAL else Apply(After(xs[..|xs| - 1], every), xs[|xs| - 1], every)
  }

  /** The i-th step begins a run. */
  predicate Begins(xs: seq<Step>, every: int, i: nat)
    requires i < |xs|
  {
    xs[i].Start? && Started(After(xs[..i], every), xs[i].now, every).0
  }

  /** Runs begun and not finished. */
  function InFlight(xs: seq<Step>, every: int): int {
    if xs == [] then 0
    else
      var n := |xs| - 1;
      InFlight(xs[..n], every) + (if Begins(xs, every, n) then 1 else if xs[n].Finish? then -1 else 0)
  }

  /** Only a run that has begun and not finished finishes. */
  predicate Legal(xs: seq<Step>, every: int) {
    forall i :: 0 <= i < |xs| && xs[i].Finish? ==> InFlight(xs[..i], every) > 0
  }

  lemma LegalPrefix(xs: seq<Step>, every: int, n: nat)
    requires Legal(xs, every) && n <= |xs|
    ensures Legal(xs[..n], every)
  {
    forall i | 0 <= i < n && xs[..n][i].Finish? ensures InFlight(xs[..n][..i], every) > 0 {
      assert xs[..n][..i] == xs[..i];
    }
  }

  /** At most one run is in flight, whatever the interleaving. */
  lemma {:induction false} AtMostOneRun(xs: seq<Step>, every: int)
    requires Legal(xs, every)
    ensures InFlight(xs, every) == if After(xs, every).running then 1 else 0
    decreases |xs|
  {
    if xs != [] {
      var n := |xs| - 1;
      LegalPrefix(xs, every, n);
      AtMostOneRun(xs[..n], every);
    }
  }

  /** What the i-th step hands out. */
  function HandsOut(xs: seq<Step>, every: int, i: nat): Option<nat>
    requires i < |xs|
  {
    if xs[i].Take? then Taken(After(xs[..i], every)).0 else None
  }

  /** The result of the run finished at `j` is the newest not handed out when the i-th step begins. */
  predicate Newest(xs: seq<Step>, j: nat, i: nat)
    requires j < i <= |xs|
  {
    && xs[j].Finish? && xs[j].res.Some?
    && forall k :: j < k < i ==> !xs[k].Take? && !(xs[k].Finish? && xs[k].res.Some?)
  }

  /** What is ready is the newest result since the last take. */
  lemma {:induction false} ReadyIsNewest(xs: seq<Step>, every: int) returns (j: nat)
    requires After(xs, every).ready.Some?
    ensures j < |xs| && Newest(xs, j, |xs|) && xs[j].res == After(xs, every).ready
    decreases |xs|
  {
    var n := |xs| - 1;
    var x := xs[n];
    if x.Finish? && x.res.Some? {
      j := n;
    } else {
      j := ReadyIsNewest(xs[..n], every);
      assert forall k :: 0 <= k < n ==> xs[..n][k] == xs[k];
    }
  }

  /** Each result is handed out at most once, and it is always the newest: two takes never hand out the same
      run's result. */
  lemma HandedOutOnce(xs: seq<Step>, every: int, i: nat, k: nat) returns (j: nat, l: nat)
    requires i < k < |xs| && HandsOut(xs, every, i).Some? && HandsOut(xs, every, k).Some?
    ensures j < i < l < k && Newest(xs, j, i) && Newest(xs, l, k)
    ensures xs[j].res == HandsOut(xs, every, i) && xs[l].res == HandsOut(xs, every, k)
  {
    j := ReadyIsNewest(xs[..i], every);
    l := ReadyIsNewest(xs[..k], every);
    assert forall n :: 0 <= n < i ==> xs[..i][n] == xs[n];
    assert forall n :: 0 <= n < k ==> xs[..k][n] == xs[n];
    assert xs[i].Take?;
  }

  lemma {:induction false} NewestIsReady(xs: seq<Step>, every: int, j: nat)
    requires j < |xs| && Newest(xs, j, |xs|)
    ensures After(xs, every).ready == xs[j].res
    decreases |xs|
  {
    var n := |xs| - 1;
    if j < n {
      assert forall k :: 0 <= k < n ==> xs[..n][k] == xs[k];
      NewestIsReady(xs[..n], every, j);
    }
  }

  /** A take hands out a result exactly when a run has left one since the last take, and then the newest. */
  lemma TakeIffNewest(xs: seq<Step>, every: int, i: nat)
    requires i < |xs| && xs[i].Take?
    ensures HandsOut(xs, every, i).Some? <==> exists j :: 0 <= j < i && Newest(xs, j, i)
    ensures forall j :: 0 <= j < i && Newest(xs, j, i) ==> HandsOut(xs, every, i) == xs[j].res
  {
    var ys := xs[..i];
    assert forall n :: 0 <= n < i ==> ys[n] == xs[n];
    if HandsOut(xs, every, i).Some? {
      var j := ReadyIsNewest(ys, every);
      assert Newest(xs, j, i);
    }
    forall j | 0 <= j < i && Newest(xs, j, i) ensures HandsOut(xs, every, i) == xs[j].res {
      assert Newest(ys, j, i);
      NewestIsReady(ys, every, j);
    }
  }

  // ---- When runs start ----

  predicate LastFinish(xs: seq<Step>, j: nat, i: nat)
    requires j < i <= |xs|
  {
    xs[j].Finish? && forall k :: j < k < i ==> !xs[k].Finish?
  }

  lemma {:induction false} NextIsKept(xs: seq<Step>, every: int, j: nat, i: nat)
    requires j < i <= |xs| && LastFinish(xs, j, i)
    ensures
      var at := After(xs[..j + 1], every);
      After(xs[..i], every).next == at.next == Some(xs[j].now + at.interval) && After(xs[..i], every).interval == at.interval
    decreases i
  {
    if i == j + 1 {
      assert xs[..i][..j] == xs[..j] && xs[..i][j] == xs[j];
    } else {
      NextIsKept(xs, every, j, i - 1);
      assert xs[..i][..i - 1] == xs[..i - 1] && xs[..i][i - 1] == xs[i - 1];
    }
  }

  /** A run begins no earlier than the last one's finish plus the interval it left. */
  lemma StartsAfterInterval(xs: seq<Step>, every: int, j: nat, i: nat)
    requires j < i < |xs| && LastFinish(xs, j, i) && Begins(xs, every, i)
    ensures xs[i].now >= xs[j].now + After(xs[..j + 1], every).interval
  {
    NextIsKept(xs, every, j, i);
  }

  /** After the first finish a start begins a run exactly when none is in flight and the interval since the last
      finish is over. */
  lemma StartsIffDue(xs: seq<Step>, every: int, j: nat, i: nat)
    requires Legal(xs, every) && j < i < |xs| && LastFinish(xs, j, i) && xs[i].Start?
    ensures Begins(xs, every, i) <==>
      InFlight(xs[..i], every) == 0 && xs[i].now >= xs[j].now + After(xs[..j + 1], every).interval
  {
    LegalPrefix(xs, every, i);
    AtMostOneRun(xs[..i], every);
    NextIsKept(xs, every, j, i);
  }

  lemma {:induction false} BeforeFirstStart(xs: seq<Step>, every: int)
    requires forall k :: 0 <= k < |xs| ==> xs[k].Take?
    ensures After(xs, every).next == None && !After(xs, every).running
    decreases |xs|
  {
    if xs != [] { BeforeFirstStart(xs[..|xs| - 1], every); }
  }

  /** Until the first finish the next run waits for three minutes after the first start, or for nothing when the
      default is shorter than that. */
  lemma {:induction false} FirstNext(xs: seq<Step>, every: int, k: nat)
    requires (forall m :: 0 <= m < |xs| ==> !xs[m].Finish?) && k < |xs| && xs[k].Start? && forall m :: 0 <= m < k ==> !xs[m].Start?
    ensures After(xs, every).next == Some(xs[k].now + if every < FIRST_DELAY then 0 else FIRST_DELAY)
    decreases |xs|
  {
    var n := |xs| - 1;
    var ys := xs[..n];
    assert forall m :: 0 <= m < n ==> ys[m] == xs[m];
    if k < n {
      FirstNext(ys, every, k);
    } else {
      BeforeFirstStart(ys, every);
    }
  }

  /** Before the first finish a start begins a run exactly when none is in flight and that is over. */
  lemma FirstStartIff(xs: seq<Step>, every: int, k: nat, i: nat)
    requires Legal(xs, every) && k <= i < |xs| && xs[k].Start? && xs[i].Start?
    requires (forall m :: 0 <= m < k ==> !xs[m].Start?) && forall m :: 0 <= m < i ==> !xs[m].Finish?
    ensures Begins(xs, every, i) <==>
      InFlight(xs[..i], every) == 0 && xs[i].now >= xs[k].now + if every < FIRST_DELAY then 0 else FIRST_DELAY
  {
    var ys := xs[..i];
    assert forall m :: 0 <= m < i ==> ys[m] == xs[m];
    LegalPrefix(xs, every, i);
    AtMostOneRun(ys, every);
    if k < i {
      FirstNext(ys, every, k);
    } else {
      BeforeFirstStart(ys, every);
    }
  }

  // ---- The interval ----

  function Pow2(k: nat): int {
    if k == 0 then 1 else 2 * Pow2(k - 1)
  }

  predicate AnyFinished(xs: seq<Step>) {
    exists i :: 0 <= i < |xs| && xs[i].Finish?
  }

  /** The slow runs in a row at the end of a history, whatever else happened in between. */
  function SlowRuns(xs: seq<Step>): (k: nat) {
    if xs == [] then 0
    else
      var x, init := xs[|xs| - 1], xs[..|xs| - 1];
      if !x.Finish? then SlowRuns(init) else if x.took <= SLOW_RUN then 0 else 1 + SlowRuns(init)
  }

  /** Over every interleaving: after k slow runs in a row the interval is the default times 2^k, up to four
      hours; after a quick one it is the default. */
  lemma {:induction false} IntervalFormula(xs: seq<Step>, every: int)
    requires every > 0
    ensures !AnyFinished(xs) ==> After(xs, every).interval == 0 && SlowRuns(xs) == 0
    ensures AnyFinished(xs) ==>
      var k := SlowRuns(xs);
      After(xs, every).interval == if k == 0 then every else Min(every * Pow2(k), MAX_INTERVAL)
    decreases |xs|
  {
    if xs != [] {
      var n := |xs| - 1;
      var before, x := xs[..n], xs[n];
      IntervalFormula(before, every);
      assert xs == before + [x];
      assert AnyFinished(xs) <==> AnyFinished(before) || x.Finish? by {
        if x.Finish? { assert xs[n].Finish?; }
        assert forall i :: 0 <= i < n ==> before[i] == xs[i];
      }
      hide AnyFinished;
      if x.Finish? && x.took > SLOW_RUN {
        DoublesOnce(every, SlowRuns(before));
      }
    }
  }

  lemma DoublesOnce(every: int, k: nat)
    requires every > 0
    ensures every * Pow2(k + 1) == 2 * (every * Pow2(k)) && every * Pow2(0) == every && every * Pow2(k) >= every
  {
    PowPositive(every, k);
  }

  lemma {:induction false} PowPositive(every: int, k: nat)
    requires every > 0
    ensures every * Pow2(k) >= every
  {
    if k > 0 {
      PowPositive(every, k - 1);
      assert every * Pow2(k) == 2 * (every * Pow2(k - 1));
    } else {
      assert every * Pow2(0) == every;
    }
  }

  /** A slow run never leaves a shorter interval than the run before it, over all legal histories, if and only
      if the default is at most four hours. */
  lemma SlowNeverSoonerIff(every: int)
    requires every > 0
    ensures (forall xs, x :: Legal(xs + [x], every) && AnyFinished(xs) && x.Finish? && x.took > SLOW_RUN ==>
               After(xs + [x], every).interval >= After(xs, every).interval)
       <==> every <= MAX_INTERVAL
  {
    if every <= MAX_INTERVAL {
      forall xs: seq<Step>, x: Step | AnyFinished(xs) && x.Finish? && x.took > SLOW_RUN
        ensures After(xs + [x], every).interval >= After(xs, every).interval
      {
        assert (xs + [x])[..|xs|] == xs;
        IntervalFormula(xs, every);
        PowPositive(every, SlowRuns(xs));
      }
    } else {
      QuickThenSlow(every);
      var xs, x := Quick(every), Finish(None, SLOW_RUN + 1, FIRST_DELAY + every);
      assert After(xs + [x], every).interval < After(xs, every).interval;
    }
  }

  /** The first run, quick, and the start of the second. */
  function Quick(every: int): seq<Step> {
    [Start(0), Start(FIRST_DELAY), Finish(None, 0, FIRST_DELAY), Start(FIRST_DELAY + every)]
  }

  lemma QuickThenSlow(every: int)
    requires every > MAX_INTERVAL
    ensures
      var xs, x := Quick(every), Finish(None, SLOW_RUN + 1, FIRST_DELAY + every);
      && Legal(xs + [x], every) && AnyFinished(xs)
      && After(xs, every).interval == every && After(xs + [x], every).interval == MAX_INTERVAL
  {
    var x := Finish(None, SLOW_RUN + 1, FIRST_DELAY + every);
    var xs := Quick(every) + [x];
    assert xs[..5] == xs && xs[..4] == Quick(every) && Quick(every)[2].Finish?;
    forall i | 0 <= i < 5 ensures xs[..i + 1][..i] == xs[..i] && xs[..i + 1][i] == xs[i] {}
    assert After(xs[..0], every) == INITIAL && InFlight(xs[..0], every) == 0;
    assert After(xs[..1], every) == State(false, Some(FIRST_DELAY), 0, None) && InFlight(xs[..1], every) == 0;
    assert After(xs[..2], every) == State(true, Some(FIRST_DELAY), 0, None) && InFlight(xs[..2], every) == 1;
    assert After(xs[..3], every) == State(false, Some(FIRST_DELAY + every), every, None) && InFlight(xs[..3], every) == 0;
    assert After(xs[..4], every) == State(true, Some(FIRST_DELAY + every), every, None) && InFlight(xs[..4], every) == 1;
  }
}
