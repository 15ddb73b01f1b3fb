/** One interval's statements: grouped by query, sorted, and the busiest picked. */
module TopStatements {
  import opened ByteText
  import opened Activity

  /** A pg_stat_statements entry. */
  datatype Key = Key(query: int, db: int, user: int)

  /** One query's activity: its totals, and where most of its time went. */
  datatype Delta = Delta(id: int, totals: Counters, topDB: int, topUser: int, topMs: real)

  /** What the order and the report of a statement depend on. */
  datatype Core = Core(id: int, totals: Counters)

  function CoreOf(d: Delta): Core { Core(d.id, d.totals) }

  /** The order of the report: most time first, then most calls, then the smaller ID. */
  predicate Before(x: Core, y: Core) {
    || x.totals.ms > y.totals.ms
    || (x.totals.ms == y.totals.ms && x.totals.calls > y.totals.calls)
    || (x.totals.ms == y.totals.ms && x.totals.calls == y.totals.calls && x.id < y.id)
  }

  predicate InOrder(ds: seq<Delta>) {
    forall i, j :: 0 <= i < j < |ds| ==> Before(CoreOf(ds[i]), CoreOf(ds[j]))
  }

  /** Most time first. */
  predicate BusiestFirst(ds: seq<Delta>) {
    forall i, j :: 0 <= i < j < |ds| ==> ds[i].totals.ms >= ds[j].totals.ms
  }

  predicate Distinct(ds: seq<Delta>) {
    forall i, j :: 0 <= i < j < |ds| ==> ds[i].id != ds[j].id
  }

  // ---- Grouping ----

  ghost function KeysFor(ks: set<Key>, q: int): set<Key> {
    set k | k in ks && k.query == q
  }

  /** The highest time of one entry, and an entry that has it. */
  ghost predicate IsTop(x: Delta, ks: set<Key>, d: map<Key, Counters>)
    requires ks <= d.Keys
  {
    && x.topMs >= 0.0 && (ks == {} ==> x.topMs == 0.0)
    && (forall k :: k in ks ==> d[k].ms <= x.topMs)
    && ((forall k :: k in ks ==> d[k].ms >= 0.0) && ks != {} ==>
          exists k :: k in ks && d[k].ms == x.topMs && k.db == x.topDB && k.user == x.topUser)
  }

  /** `x` is the group of query `q`: the sums over its entries. */
  ghost predicate IsGroup(x: Delta, q: int, ks: set<Key>, d: map<Key, Counters>)
    requires ks <= d.Keys
  {
    x.id == q && x.totals == Sum(KeysFor(ks, q), d) && IsTop(x, KeysFor(ks, q), d)
  }

  ghost predicate Grouped(by_: map<int, Delta>, ks: set<Key>, d: map<Key, Counters>)
    requires ks <= d.Keys
  {
    && by_.Keys == (set k | k in ks :: k.query)
    && forall q :: q in by_ ==> IsGroup(by_[q], q, ks, d)
  }

  /** One more entry for its query's group. */
  function AddTo(x: Delta, k: Key, c: Counters): Delta {
    var y := x.(totals := Add(x.totals, c));
    if c.ms >= y.topMs then y.(topMs := c.ms, topDB := k.db, topUser := k.user) else y
  }

  lemma AddedToGroup(x: Delta, k: Key, ks: set<Key>, d: map<Key, Counters>)
    requires ks <= d.Keys && k in d && k !in ks
    requires IsGroup(x, k.query, ks, d)
    ensures IsGroup(AddTo(x, k, d[k]), k.query, ks + {k}, d)
  {
    var q := k.query;
    var was, now := KeysFor(ks, q), KeysFor(ks + {k}, q);
    var y := AddTo(x, k, d[k]);
    assert now == was + {k} && now - {k} == was;
    SumRemove(now, d, k);
    assert y.totals == Sum(now, d);
    if d[k].ms >= x.topMs {
      assert k in now && d[k].ms == y.topMs && k.db == y.topDB && k.user == y.topUser;
    } else if (forall l :: l in now ==> d[l].ms >= 0.0) {
      assert k in now && was != {};
      var l :| l in was && d[l].ms == x.topMs && l.db == x.topDB && l.user == x.topUser;
      assert l in now;
    }
  }

  /** Other queries' groups do not change. */
  lemma OtherGroupStays(x: Delta, q: int, k: Key, ks: set<Key>, d: map<Key, Counters>)
    requires ks <= d.Keys && k in d && k.query != q && IsGroup(x, q, ks, d)
    ensures IsGroup(x, q, ks + {k}, d)
  {
    assert KeysFor(ks + {k}, q) == KeysFor(ks, q);
  }

  lemma NewGroup(q: int, ks: set<Key>, d: map<Key, Counters>)
    requires ks <= d.Keys && forall k :: k in ks ==> k.query != q
    ensures IsGroup(Delta(q, ZERO, 0, 0, 0.0), q, ks, d)
  {
    assert KeysFor(ks, q) == {};
  }

  lemma GroupedStep(by_: map<int, Delta>, k: Key, ks: set<Key>, d: map<Key, Counters>)
    requires ks <= d.Keys && k in d && k !in ks && Grouped(by_, ks, d)
    ensures
      var x := if k.query in by_ then by_[k.query] else Delta(k.query, ZERO, 0, 0, 0.0);
      Grouped(by_[k.query := AddTo(x, k, d[k])], ks + {k}, d)
  {
    hide IsGroup;
    var x := if k.query in by_ then by_[k.query] else Delta(k.query, ZERO, 0, 0, 0.0);
    if k.query !in by_ {
      assert forall l :: l in ks ==> l.query in by_.Keys;
      NewGroup(k.query, ks, d);
    }
    AddedToGroup(x, k, ks, d);
    var more := by_[k.query := AddTo(x, k, d[k])];
    forall q | q in more ensures IsGroup(more[q], q, ks + {k}, d) {
      if q != k.query { OtherGroupStays(by_[q], q, k, ks, d); }
    }
    assert more.Keys == (set l | l in ks + {k} :: l.query);
  }

  // ---- Sorting ----

  /** Puts `x` where it belongs in a list in order. */
  function Insert(x: Delta, ds: seq<Delta>): (r: seq<Delta>)
    ensures multiset(r) == multiset([x]) + multiset(ds)
  {
    if ds == [] then [x]
    else if Before(CoreOf(x), CoreOf(ds[0])) then
      [x] + ds
    else
      assert ds == [ds[0]] + ds[1..];
      [ds[0]] + Insert(x, ds[1..])
  }

  /** slices.SortFunc. */
  function Sort(ds: seq<Delta>): (r: seq<Delta>)
    ensures multiset(r) == multiset(ds)
  {
    if ds == [] then []
    else
      assert ds == [ds[0]] + ds[1..];
      Insert(ds[0], Sort(ds[1..]))
  }

  lemma {:induction false} InsertInOrder(x: Delta, ds: seq<Delta>)
    requires InOrder(ds) && forall i :: 0 <= i < |ds| ==> ds[i].id != x.id
    ensures InOrder(Insert(x, ds))
    decreases |ds|
  {
    if ds != [] && !Before(CoreOf(x), CoreOf(ds[0])) {
      InsertInOrder(x, ds[1..]);
      var r := Insert(x, ds[1..]);
      forall i | 0 <= i < |r| ensures Before(CoreOf(ds[0]), CoreOf(r[i])) {
        assert r[i] in multiset(r);
        if r[i] != x { assert r[i] in ds[1..]; }
      }
    }
  }

  lemma {:induction false} SortInOrder(ds: seq<Delta>)
    requires Distinct(ds)
    ensures InOrder(Sort(ds))
    decreases |ds|
  {
    if ds != [] {
      SortInOrder(ds[1..]);
      var r := Sort(ds[1..]);
      forall i | 0 <= i < |r| ensures r[i].id != ds[0].id {
        assert r[i] in multiset(r);
        assert r[i] in ds[1..];
      }
      InsertInOrder(ds[0], r);
    }
  }

  lemma {:induction false} InsertBusiestFirst(x: Delta, ds: seq<Delta>)
    requires BusiestFirst(ds)
    ensures BusiestFirst(Insert(x, ds))
    decreases |ds|
  {
    if ds != [] && !Before(CoreOf(x), CoreOf(ds[0])) {
      InsertBusiestFirst(x, ds[1..]);
      var r := Insert(x, ds[1..]);
      forall i | 0 <= i < |r| ensures ds[0].totals.ms >= r[i].totals.ms {
        assert r[i] in multiset(r);
        if r[i] != x { assert r[i] in ds[1..]; }
      }
    }
  }

  lemma {:induction false} SortBusiestFirst(ds: seq<Delta>)
    ensures BusiestFirst(Sort(ds))
    decreases |ds|
  {
    if ds != [] {
      SortBusiestFirst(ds[1..]);
      InsertBusiestFirst(ds[0], Sort(ds[1..]));
    }
  }

  /** Two lists in order with the same statements are the same list. */
  lemma {:induction false} OrderIsUnique(xs: seq<Core>, ys: seq<Core>)
    requires forall i, j :: 0 <= i < j < |xs| ==> Before(xs[i], xs[j])
    requires forall i, j :: 0 <= i < j < |ys| ==> Before(ys[i], ys[j])
    requires forall c :: c in xs <==> c in ys
    ensures xs == ys
    decreases |xs|
  {
    assert |ys| > 0 ==> ys[0] in ys && ys[0] in xs;
    if xs != [] {
      assert xs[0] in xs;
      var j :| 0 <= j < |ys| && ys[j] == xs[0];
      var i :| 0 <= i < |xs| && xs[i] == ys[0];
      assert i == 0 && j == 0;
      forall c | c in xs[1..] ensures c in ys[1..] {
        var n :| 1 <= n < |xs| && xs[n] == c;
        assert c in xs && Before(xs[0], c);
        var m :| 0 <= m < |ys| && ys[m] == c;
        assert m > 0 && ys[1..][m - 1] == c;
      }
      forall c | c in ys[1..] ensures c in xs[1..] {
        var n :| 1 <= n < |ys| && ys[n] == c;
        assert c in ys && Before(ys[0], c);
        var m :| 0 <= m < |xs| && xs[m] == c;
        assert m > 0 && xs[1..][m - 1] == c;
      }
      OrderIsUnique(xs[1..], ys[1..]);
      assert xs == [xs[0]] + xs[1..] && ys == [ys[0]] + ys[1..];
    }
  }

  // ---- statementDeltas ----

  ghost function QueriesOf(d: map<Key, Counters>): set<int> {
    set k | k in d :: k.query
  }

  ghost predicate Lists(out: seq<Delta>, q: int) {
    exists i :: 0 <= i < |out| && out[i].id == q
  }

  /** The list holds each query with activity once, with its sums and its top entry, in order. */
  ghost predicate IsReport(out: seq<Delta>, d: map<Key, Counters>) {
    && InOrder(out)
    && (forall q :: q in QueriesOf(d) <==> Lists(out, q))
    && (forall i :: 0 <= i < |out| ==> IsGroup(out[i], out[i].id, d.Keys, d))
  }

  /** statementDeltas: whatever order the map is walked in, the groups, the sums and the order are these. */
  method StatementDeltas(prev: map<Key, Counters>, cur: map<Key, Counters>, truncated: bool) returns (out: seq<Delta>)
    ensures IsReport(out, Deltas(prev, cur, truncated))
  {
    hide IsReport, Grouped, KeyDelta;
    var by_, rest := map[], cur.Keys;
    ghost var d := Deltas(prev, cur, truncated);
    NothingGrouped(d);
    assert d.Keys - rest == {};
    while rest != {}
      invariant rest <= cur.Keys
      invariant Grouped(by_, d.Keys - rest, d)
      decreases |rest|
    {
      var k := AnyOf(rest);
      var delta := KeyDelta(prev, cur, truncated, k);
      ghost var done := d.Keys - rest;
      rest := rest - {k};
      if delta.Some? {
        assert k in d && d[k] == delta.value;
        GroupedStep(by_, k, done, d);
        var x := if k.query in by_ then by_[k.query] else Delta(k.query, ZERO, 0, 0, 0.0);
        by_ := by_[k.query := AddTo(x, k, delta.value)];
        assert d.Keys - rest == done + {k};
      } else {
        assert d.Keys - rest == done;
      }
    }
    assert d.Keys - rest == d.Keys;
    out := ListGroups(by_, d);
  }

  lemma NothingGrouped(d: map<Key, Counters>)
    ensures Grouped(map[], {}, d)
  {
  }

  method ListGroups(by_: map<int, Delta>, ghost d: map<Key, Counters>) returns (out: seq<Delta>)
    requires Grouped(by_, d.Keys, d)
    ensures IsReport(out, d)
  {
    hide IsGroup, IsReport, Sort, InOrder;
    var list, rest := [], by_.Keys;
    while rest != {}
      invariant rest <= by_.Keys && Distinct(list)
      invariant forall i :: 0 <= i < |list| ==> list[i].id in by_.Keys - rest && list[i] == by_[list[i].id]
      invariant forall q :: q in by_.Keys - rest ==> by_[q] in list
      decreases |rest|
    {
      var q := AnyOf(rest);
      GroupId(by_[q], q, d);
      rest := rest - {q};
      list := list + [by_[q]];
    }
    out := Sort(list);
    SortInOrder(list);
    SameElements(out, list);
    forall i | 0 <= i < |out| ensures out[i].id in by_ && out[i] == by_[out[i].id] { assert out[i] in list; }
    GroupsReported(out, by_, d);
  }

  lemma SameElements(a: seq<Delta>, b: seq<Delta>)
    requires multiset(a) == multiset(b)
    ensures forall x :: x in a <==> x in b
  {
    assert forall x :: x in a <==> x in multiset(a);
    assert forall x :: x in b <==> x in multiset(b);
  }

  lemma GroupsReported(out: seq<Delta>, by_: map<int, Delta>, d: map<Key, Counters>)
    requires Grouped(by_, d.Keys, d) && InOrder(out)
    requires forall i :: 0 <= i < |out| ==> out[i].id in by_ && out[i] == by_[out[i].id]
    requires forall q :: q in by_ ==> by_[q] in out
    ensures IsReport(out, d)
  {
    hide IsGroup, InOrder;
    forall q ensures q in QueriesOf(d) <==> Lists(out, q) {
      if q in by_ {
        GroupId(by_[q], q, d);
        assert by_[q] in out;
      }
    }
  }

  lemma GroupId(x: Delta, q: int, d: map<Key, Counters>)
    requires IsGroup(x, q, d.Keys, d)
    ensures x.id == q
  {
  }

  /** Two reports of the same interval list the same statements with the same sums in the same order. */
  lemma ReportIsUnique(out1: seq<Delta>, out2: seq<Delta>, d: map<Key, Counters>)
    requires IsReport(out1, d) && IsReport(out2, d)
    ensures Cores(out1) == Cores(out2)
  {
    var xs, ys := Cores(out1), Cores(out2);
    SameCores(out1, out2, d);
    SameCores(out2, out1, d);
    OrderIsUnique(xs, ys);
  }

  function Cores(ds: seq<Delta>): seq<Core> {
    seq(|ds|, i requires 0 <= i < |ds| => CoreOf(ds[i]))
  }

  lemma SameCores(out1: seq<Delta>, out2: seq<Delta>, d: map<Key, Counters>)
    requires IsReport(out1, d) && IsReport(out2, d)
    ensures forall c :: c in Cores(out1) ==> c in Cores(out2)
  {
    hide IsTop, Sum;
    forall c | c in Cores(out1) ensures c in Cores(out2) {
      var i :| 0 <= i < |out1| && c == CoreOf(out1[i]);
      assert Lists(out1, out1[i].id) && Lists(out2, out1[i].id);
      var j :| 0 <= j < |out2| && out2[j].id == out1[i].id;
      assert IsGroup(out1[i], out1[i].id, d.Keys, d) && IsGroup(out2[j], out2[j].id, d.Keys, d);
      assert Cores(out2)[j] == c;
    }
  }

  // ---- pickStatements ----

  const BY_TIME: nat := 40
  const BY_CALLS: nat := 10

  /** Puts `x` before the first that has no more calls. */
  function InsertByCalls(x: Delta, ds: seq<Delta>): (r: seq<Delta>)
    ensures multiset(r) == multiset([x]) + multiset(ds)
  {
    if ds == [] || ds[0].totals.calls <= x.totals.calls then [x] + ds
    else
      assert ds == [ds[0]] + ds[1..];
      [ds[0]] + InsertByCalls(x, ds[1..])
  }

  /** slices.SortStableFunc by calls, most first. */
  function SortByCalls(ds: seq<Delta>): (r: seq<Delta>)
    ensures multiset(r) == multiset(ds)
    ensures |r| == |ds|
  {
    if ds == [] then []
    else
      assert ds == [ds[0]] + ds[1..];
      var r := InsertByCalls(ds[0], SortByCalls(ds[1..]));
      assert |multiset(r)| == |multiset(ds)|;
      r
  }

  predicate MostCallsFirst(ds: seq<Delta>) {
    forall i, j :: 0 <= i < j < |ds| ==> ds[i].totals.calls >= ds[j].totals.calls
  }

  lemma {:induction false} InsertKeepsCalls(x: Delta, ds: seq<Delta>)
    requires MostCallsFirst(ds)
    ensures MostCallsFirst(InsertByCalls(x, ds))
    decreases |ds|
  {
    if ds != [] && ds[0].totals.calls > x.totals.calls {
      InsertKeepsCalls(x, ds[1..]);
      var r := InsertByCalls(x, ds[1..]);
      forall i | 0 <= i < |r| ensures ds[0].totals.calls >= r[i].totals.calls {
        assert r[i] in multiset(r);
        if r[i] != x { assert r[i] in ds[1..]; }
      }
    }
  }

  lemma {:induction false} SortedByCalls(ds: seq<Delta>)
    ensures MostCallsFirst(SortByCalls(ds))
    decreases |ds|
  {
    if ds != [] {
      SortedByCalls(ds[1..]);
      InsertKeepsCalls(ds[0], SortByCalls(ds[1..]));
    }
  }

  /** The rest after the busiest by time, most called first. */
  function Rest(ds: seq<Delta>): seq<Delta>
    requires |ds| > BY_TIME + BY_CALLS
  {
    SortByCalls(ds[BY_TIME..])
  }

  /** pickStatements: the busiest by time, then the most called of the rest. */
  function Pick(ds: seq<Delta>): (picked: seq<Delta>) {
    if |ds| <= BY_TIME + BY_CALLS then ds else ds[..BY_TIME] + Rest(ds)[..BY_CALLS]
  }

  /** What the report leaves out. */
  function Dropped(ds: seq<Delta>): (dropped: seq<Delta>) {
    if |ds| <= BY_TIME + BY_CALLS then [] else Rest(ds)[BY_CALLS..]
  }

  lemma PickLosesNothing(ds: seq<Delta>)
    ensures multiset(Pick(ds)) + multiset(Dropped(ds)) == multiset(ds)
  {
    if |ds| > BY_TIME + BY_CALLS {
      hide SortByCalls;
      var first, rest := ds[..BY_TIME], Rest(ds);
      assert ds == first + ds[BY_TIME..];
      assert rest == rest[..BY_CALLS] + rest[BY_CALLS..];
    }
  }

  lemma PickTakesMostCalled(ds: seq<Delta>, i: nat, j: nat)
    requires BY_TIME <= i < |Pick(ds)| && j < |Dropped(ds)|
    ensures Dropped(ds)[j].totals.calls <= Pick(ds)[i].totals.calls
  {
    hide SortByCalls;
    SortedByCalls(ds[BY_TIME..]);
    assert Pick(ds)[i] == Rest(ds)[i - BY_TIME] && Dropped(ds)[j] == Rest(ds)[BY_CALLS + j];
  }

  lemma PickTakesBusiest(ds: seq<Delta>, i: nat, j: nat)
    requires BusiestFirst(ds) && i < BY_TIME && j < |Dropped(ds)|
    ensures i < |Pick(ds)| && Dropped(ds)[j].totals.ms <= Pick(ds)[i].totals.ms
  {
    hide SortByCalls, BusiestFirst;
    RestIsLater(ds, i, BY_CALLS + j);
    assert Pick(ds)[i] == ds[i] && Dropped(ds)[j] == Rest(ds)[BY_CALLS + j];
  }

  /** The pick is an exact top-k, twice: nothing is lost, nothing left out takes more time than any of the
      first 40, and nothing left out has more calls than any of the last 10. */
  lemma PickIsTopK(ds: seq<Delta>)
    requires BusiestFirst(ds)
    ensures multiset(Pick(ds)) + multiset(Dropped(ds)) == multiset(ds)
    ensures |Pick(ds)| + |Dropped(ds)| == |ds| && |Pick(ds)| <= BY_TIME + BY_CALLS
    ensures forall i, j :: 0 <= i < BY_TIME && i < |Pick(ds)| && 0 <= j < |Dropped(ds)| ==>
                             Dropped(ds)[j].totals.ms <= Pick(ds)[i].totals.ms
    ensures forall i, j :: BY_TIME <= i < |Pick(ds)| && 0 <= j < |Dropped(ds)| ==>
                             Dropped(ds)[j].totals.calls <= Pick(ds)[i].totals.calls
  {
    PickLosesNothing(ds);
    PickSizes(ds);
    hide Pick, Dropped, BusiestFirst;
    forall i: nat, j: nat | i < BY_TIME && i < |Pick(ds)| && j < |Dropped(ds)|
      ensures Dropped(ds)[j].totals.ms <= Pick(ds)[i].totals.ms
    {
      PickTakesBusiest(ds, i, j);
    }
    forall i: nat, j: nat | BY_TIME <= i < |Pick(ds)| && j < |Dropped(ds)|
      ensures Dropped(ds)[j].totals.calls <= Pick(ds)[i].totals.calls
    {
      PickTakesMostCalled(ds, i, j);
    }
  }

  lemma PickSizes(ds: seq<Delta>)
    ensures |Pick(ds)| + |Dropped(ds)| == |ds| && |Pick(ds)| <= BY_TIME + BY_CALLS
  {
  }

  /** Everything after the first 40 takes no more time than any of them. */
  lemma RestIsLater(ds: seq<Delta>, i: nat, j: nat)
    requires BusiestFirst(ds) && |ds| > BY_TIME + BY_CALLS && i < BY_TIME && j < |Rest(ds)|
    ensures Rest(ds)[j].totals.ms <= ds[i].totals.ms
  {
    hide SortByCalls;
    var x := Rest(ds)[j];
    assert x in multiset(Rest(ds));
    assert x in ds[BY_TIME..];
    var n :| BY_TIME <= n < |ds| && ds[n] == x;
    assert ds[i].totals.ms >= ds[n].totals.ms;
  }

  // ---- The report ----

  /** One interval's statistics: totals over everything, the picked statements and how many were left out. */
  datatype QueryStats = QueryStats(gap: int, calls: int, ms: real, statements: seq<Delta>, leftOut: nat)

  function TotalOf(ds: seq<Delta>): Counters {
    if ds == [] then ZERO else Add(TotalOf(ds[..|ds| - 1]), ds[|ds| - 1].totals)
  }

  method AddUp(ds: seq<Delta>) returns (calls: int, ms: real)
    ensures calls == TotalOf(ds).calls && ms == TotalOf(ds).ms
  {
    calls, ms := 0, 0.0;
    var i := 0;
    while i < |ds|
      invariant 0 <= i <= |ds|
      invariant calls == TotalOf(ds[..i]).calls && ms == TotalOf(ds[..i]).ms
    {
      assert ds[..i + 1][..i] == ds[..i];
      calls, ms := calls + ds[i].totals.calls, ms + ds[i].totals.ms;
      i := i + 1;
    }
    assert ds[..i] == ds;
  }

  /** The end of stmtState.read: totals over every statement, picked or not. */
  method Summarize(gap: int, ds: seq<Delta>) returns (qs: QueryStats)
    ensures qs.gap == gap && qs.calls == TotalOf(ds).calls && qs.ms == TotalOf(ds).ms
    ensures qs.statements == Pick(ds) && qs.leftOut == |Dropped(ds)|
  {
    var calls, ms := AddUp(ds);
    PickSizes(ds);
    var picked := Pick(ds);
    qs := QueryStats(gap, calls, ms, picked, |ds| - |picked|);
  }

  /** BuildQueryStats: the list in any order is put in order first. */
  method BuildStats(gap: int, list: seq<Delta>) returns (qs: QueryStats)
    ensures qs.gap == gap && qs.calls == TotalOf(list).calls && qs.ms == TotalOf(list).ms
    ensures qs.statements == Pick(Sort(list)) && qs.leftOut == |Dropped(Sort(list))|
    ensures BusiestFirst(Sort(list)) && multiset(qs.statements) <= multiset(list) && |qs.statements| + qs.leftOut == |list|
  {
    hide Sort;
    var calls, ms := AddUp(list);
    var ds := Sort(list);
    SortBusiestFirst(list);
    assert |multiset(ds)| == |multiset(list)|;
    PickIsTopK(ds);
    var picked := Pick(ds);
    qs := QueryStats(gap, calls, ms, picked, |ds| - |picked|);
  }

  /** A report's total is the sum over all entries. */
  lemma ReportTotal(out: seq<Delta>, d: map<Key, Counters>)
    requires IsReport(out, d)
    ensures TotalOf(out) == Sum(d.Keys, d)
  {
    ReportPrefixTotal(out, d, |out|);
    hide Sum, IsGroup, InOrder, TotalOf;
    assert out[..|out|] == out;
    forall k | k in d ensures k in ReportedKeys(out, d, |out|) {
      assert k.query in QueriesOf(d) && Lists(out, k.query);
    }
    assert ReportedKeys(out, d, |out|) == d.Keys;
  }

  ghost function ReportedKeys(out: seq<Delta>, d: map<Key, Counters>, n: nat): set<Key>
    requires n <= |out|
  {
    set k | k in d && exists i :: 0 <= i < n && out[i].id == k.query
  }

  /** One more statement of the report: the entries of its query, which no other has. */
  lemma ReportedMore(out: seq<Delta>, d: map<Key, Counters>, n: nat)
    requires InOrder(out) && n < |out|
    requires forall i :: 0 <= i < n ==> out[i].id != out[n].id
    ensures
      var some, here := ReportedKeys(out, d, n), KeysFor(d.Keys, out[n].id);
      some !! here && ReportedKeys(out, d, n + 1) == some + here
  {
    hide InOrder;
    var some, here := ReportedKeys(out, d, n), KeysFor(d.Keys, out[n].id);
    assert forall k :: k in here ==> k in d && out[n].id == k.query;
  }

  lemma {:induction false} ReportPrefixTotal(out: seq<Delta>, d: map<Key, Counters>, n: nat)
    requires IsReport(out, d) && n <= |out|
    ensures TotalOf(out[..n]) == Sum(ReportedKeys(out, d, n), d)
    decreases n
  {
    if n == 0 {
      assert ReportedKeys(out, d, 0) == {};
    } else {
      ReportPrefixTotal(out, d, n - 1);
      hide Sum, IsTop;
      assert out[..n][..n - 1] == out[..n - 1];
      var x := out[n - 1];
      var some, here := ReportedKeys(out, d, n - 1), KeysFor(d.Keys, x.id);
      GroupsDiffer(out, d, n - 1);
      ReportedMore(out, d, n - 1);
      SumUnion(some, here, d);
      assert IsGroup(x, x.id, d.Keys, d);
    }
  }

  /** No query is listed twice: its two groups would be equal, and no statement is before itself. */
  lemma GroupsDiffer(out: seq<Delta>, d: map<Key, Counters>, n: nat)
    requires IsReport(out, d) && n < |out|
    ensures forall i :: 0 <= i < n ==> out[i].id != out[n].id
  {
    hide Sum, IsTop;
    forall i | 0 <= i < n ensures out[i].id != out[n].id {
      assert Before(CoreOf(out[i]), CoreOf(out[n]));
      assert IsGroup(out[i], out[i].id, d.Keys, d) && IsGroup(out[n], out[n].id, d.Keys, d);
    }
  }

  lemma {:induction false} SumUnion(a: set<Key>, b: set<Key>, m: map<Key, Counters>)
    requires a + b <= m.Keys && a !! b
    ensures Sum(a + b, m) == Add(Sum(a, m), Sum(b, m))
    decreases |b|
  {
    if b == {} {
      assert a + b == a;
      AddZero(Sum(a, m));
    } else {
      var k :| k in b;
      hide Sum;
      var rest := b - {k};
      SumRemove(a + b, m, k);
      SumRemove(b, m, k);
      assert a + b - {k} == a + rest;
      SumUnion(a, rest, m);
      AddSwap(m[k], Sum(a, m), Sum(rest, m));
    }
  }

  lemma AddZero(x: Counters)
    ensures Add(x, ZERO) == x
  {
  }
}
