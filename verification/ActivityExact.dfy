/** Exactly what is reported of each entry, readings cut short or not, evicted or not. */
module ActivityExact {
  import opened ByteText
  import opened Activity
  import opened StatementTracker

  // ---- One entry ----

  predicate Evicts<K(==)>(es: seq<Event<K>>, k: K) {
    exists i :: 0 <= i < |es| && es[i] == Evicted(k)
  }

  /** What ran of `k` since it was last evicted, or since the start. */
  function Since<K(==)>(es: seq<Event<K>>, k: K): (x: Counters)
    decreases |es|
  {
    if es == [] then ZERO
    else
      var x, e := Since(es[..|es| - 1], k), es[|es| - 1];
      if e == Evicted(k) then ZERO else if e.Ran? && e.k == k then Add(x, e.grew) else x
  }

  lemma EvictsLast<K>(es: seq<Event<K>>, k: K)
    requires es != []
    ensures Evicts(es, k) <==> Evicts(es[..|es| - 1], k) || es[|es| - 1] == Evicted(k)
  {
    var init := es[..|es| - 1];
    assert forall i :: 0 <= i < |init| ==> init[i] == es[i];
    if Evicts(es, k) {
      var i :| 0 <= i < |es| && es[i] == Evicted(k);
      assert i < |init| ==> init[i] == Evicted(k);
    }
  }

  /** An entry that is not evicted has what it had and what ran; one that is has what ran since. */
  lemma {:induction false} EntryIs<K>(s: map<K, Counters>, es: seq<Event<K>>, k: K)
    requires ValidEvents(es)
    ensures k in After(s, es) ==>
              After(s, es)[k] == if Evicts(es, k) || k !in s then Since(es, k) else Add(s[k], Since(es, k))
    ensures k !in After(s, es) ==> Since(es, k) == ZERO && (Evicts(es, k) || k !in s)
    ensures !Evicts(es, k) ==> Since(es, k) == Actual(es, k)
    ensures k in After(s, es) && (Evicts(es, k) || k !in s) ==> Since(es, k).calls >= 1
    ensures Cumulative(Since(es, k)) && (Since(es, k).calls == 0 ==> Since(es, k) == ZERO)
    decreases |es|
  {
    if es == [] {
      assert !Evicts(es, k);
    } else {
      EntryIs(s, es[..|es| - 1], k);
      EvictsLast(es, k);
      assert es[|es| - 1].Ran? ==> Growth(es[|es| - 1].grew);
      hide Evicts;
    }
  }

  /** An entry listed in both readings and not evicted in between is reported with exactly what ran of it,
      if it ran at all; readings cut short make no difference. */
  lemma ListedExact<K(!new)>(s: map<K, Counters>, es: seq<Event<K>>,
                             prev: map<K, Counters>, cur: map<K, Counters>, truncated: bool, k: K)
    requires ValidServer(s) && ValidEvents(es) && ReadingOf(prev, s, false) && ReadingOf(cur, After(s, es), false)
    requires k in prev && k in cur && !Evicts(es, k)
    ensures k in Deltas(prev, cur, truncated) <==> Actual(es, k).calls > 0
    ensures k in Deltas(prev, cur, truncated) ==> Deltas(prev, cur, truncated)[k] == Actual(es, k)
    ensures k !in Deltas(prev, cur, truncated) ==> Actual(es, k) == ZERO
  {
    EntryIs(s, es, k);
    assert Cumulative(Actual(es, k));
  }

  /** An entry listed in the later reading only: with whole readings it is reported with exactly what ran of
      it since it was added, and with a reading cut short not at all. */
  lemma NewExact<K(!new)>(s: map<K, Counters>, es: seq<Event<K>>,
                          prev: map<K, Counters>, cur: map<K, Counters>, truncated: bool, k: K)
    requires ValidServer(s) && ValidEvents(es)
    requires ReadingOf(prev, s, !truncated) && ReadingOf(cur, After(s, es), !truncated)
    requires k !in prev && k in cur
    ensures k in Deltas(prev, cur, truncated) <==> !truncated
    ensures !truncated ==> Deltas(prev, cur, truncated)[k] == Since(es, k)
  {
    EntryIs(s, es, k);
  }

  /** An entry listed in both readings and evicted in between is reported with exactly what ran since if and
      only if that is less than it had, in calls or in time; otherwise what it had is taken off. */
  lemma EvictedExactIff<K(!new)>(s: map<K, Counters>, es: seq<Event<K>>,
                                 prev: map<K, Counters>, cur: map<K, Counters>, truncated: bool, k: K)
    requires ValidServer(s) && ValidEvents(es) && ReadingOf(prev, s, false) && ReadingOf(cur, After(s, es), false)
    requires k in prev && prev[k].calls > 0 && k in cur && Evicts(es, k)
    ensures
      var d, x := Deltas(prev, cur, truncated), Since(es, k);
      && ((k in d && d[k] == x) <==> x.calls < prev[k].calls || x.ms < prev[k].ms)
      && (k in d && d[k] != x ==> d[k] == Minus(x, prev[k]))
      && (k !in d ==> x.calls == prev[k].calls && x.ms >= prev[k].ms)
  {
    EntryIs(s, es, k);
  }

  /** One call, an eviction, two calls: one is reported. */
  lemma EvictionHidesCalls<K(!new)>(k: K)
    ensures
      var one := Counters(1, 1.0, 0, 0, 0, 0);
      var s, es: seq<Event<K>> := map[k := one], [Evicted(k), Event.Ran(k, one), Event.Ran(k, one)];
      var d := Deltas(s, After(s, es), false);
      k in d && d[k].calls == 1 && Since(es, k).calls == 2
  {
    var one := Counters(1, 1.0, 0, 0, 0, 0);
    var s, es: seq<Event<K>> := map[k := one], [Evicted(k), Event.Ran(k, one), Event.Ran(k, one)];
    var e1, e2: seq<Event<K>> := [Evicted(k)], [Evicted(k), Event.Ran(k, one)];
    SinceStep(s, [], Evicted(k), k);
    SinceStep(s, e1, Event.Ran(k, one), k);
    SinceStep(s, e2, Event.Ran(k, one), k);
    assert [] + [Evicted(k)] == e1 && e1 + [Event.Ran(k, one)] == e2 && e2 + [Event.Ran(k, one)] == es;
    hide Since, After;
    assert Since(e2, k) == one == After(s, e2)[k];
  }

  lemma SinceStep<K>(s: map<K, Counters>, init: seq<Event<K>>, e: Event<K>, k: K)
    ensures
      Since(init + [e], k)
      == if e == Evicted(k) then ZERO else if e.Ran? && e.k == k then Add(Since(init, k), e.grew) else Since(init, k)
    ensures
      After(s, init + [e])
      == if e.Ran? then After(s, init)[e.k := Add(if e.k in After(s, init) then After(s, init)[e.k] else ZERO, e.grew)]
         else After(s, init) - {e.k}
  {
    assert (init + [e])[..|init|] == init;
  }

  // ---- A whole reading ----

  predicate NoEvictionsIn<K>(es: seq<Event<K>>) {
    forall i :: 0 <= i < |es| ==> es[i].Ran?
  }

  /** Without evictions, what is reported is what ran, over the entries listed in both readings; cut short or
      not. */
  lemma CutExact<K(!new)>(s: map<K, Counters>, es: seq<Event<K>>, prev: map<K, Counters>, cur: map<K, Counters>)
    requires ValidServer(s) && ValidEvents(es) && NoEvictionsIn(es)
    requires ReadingOf(prev, s, false) && ReadingOf(cur, After(s, es), false)
    ensures
      var d, both := Deltas(prev, cur, true), prev.Keys * cur.Keys;
      d.Keys <= both && Sum(d.Keys, d) == Sum(both, RanOf(es, both))
  {
    var d, both := Deltas(prev, cur, true), prev.Keys * cur.Keys;
    forall k | k in both
      ensures (k in d ==> d[k] == Actual(es, k)) && (k !in d ==> Actual(es, k) == ZERO)
    {
      assert !Evicts(es, k);
      ListedExact(s, es, prev, cur, true, k);
    }
    assert d.Keys <= both;
    hide Deltas, Actual;
    SumSplit(both, d.Keys, RanOf(es, both));
    SumSame(d.Keys, d, RanOf(es, both));
  }

  // ---- Runs of readings cut short ----

  /** One epoch, gaps in range, no evictions, every reading cut short. */
  ghost predicate CutRun<K(!new)>(t: Tracker<K>, s: map<K, Counters>, rs: seq<Round<K>>)
    decreases |rs|
  {
    rs == [] ||
    (&& ValidEvents(rs[0].events) && NoEvictionsIn(rs[0].events)
     && Usable(t, rs[0].reading) && rs[0].reading.truncated
     && ReadingOf(rs[0].reading.entries, After(s, rs[0].events), false)
     && CutRun(Keep(rs[0].reading), After(s, rs[0].events), rs[1..]))
  }

  /** What ran in each round of the entries listed before and after it. */
  ghost function ListedRan<K(!new)>(t: Tracker<K>, rs: seq<Round<K>>): (x: Counters)
    decreases |rs|
  {
    if rs == [] then ZERO
    else
      var both := (if t.prev.Some? then t.prev.value.Keys else {}) * rs[0].reading.entries.Keys;
      Add(Sum(both, RanOf(rs[0].events, both)), ListedRan(Keep(rs[0].reading), rs[1..]))
  }

  /** Over such a run exactly that is reported. */
  lemma {:induction false} CutRunExact<K(!new)>(t: Tracker<K>, s: map<K, Counters>, rs: seq<Round<K>>)
    requires ValidServer(s) && t.prev.Some? && ReadingOf(t.prev.value, s, false) && CutRun(t, s, rs)
    ensures Reported(t, rs) == ListedRan(t, rs)
    decreases |rs|
  {
    hide Sum, Deltas;
    if rs != [] {
      CutExact(s, rs[0].events, t.prev.value, rs[0].reading.entries);
      ServerStaysValid(s, rs[0].events);
      CutRunExact(Keep(rs[0].reading), After(s, rs[0].events), rs[1..]);
    }
  }

  // ---- Merging rows ----

  /** The counters of the rows listed under `k`, added up. */
  function RowsOf<K(==)>(rows: seq<(K, Counters)>, k: K): Counters {
    if rows == [] then ZERO else Add(RowFor(rows[0], k), RowsOf(rows[1..], k))
  }

  function RowFor<K(==)>(row: (K, Counters), k: K): Counters {
    if row.0 == k then row.1 else ZERO
  }

  lemma {:induction false} RowsOfLast<K>(rows: seq<(K, Counters)>, k: K)
    requires rows != []
    ensures RowsOf(rows, k) == Add(RowsOf(rows[..|rows| - 1], k), RowFor(rows[|rows| - 1], k))
    decreases |rows|
  {
    hide RowFor;
    var n := |rows| - 1;
    if n > 0 {
      RowsOfLast(rows[1..], k);
      assert rows[..n][1..] == rows[1..][..n - 1] && rows[1..][n - 1] == rows[n] && rows[..n][0] == rows[0];
      hide Add;
      AddAssoc(RowFor(rows[0], k), RowsOf(rows[1..][..n - 1], k), RowFor(rows[n], k));
    } else {
      OneRow(rows, k);
    }
  }

  lemma OneRow<K>(rows: seq<(K, Counters)>, k: K)
    requires |rows| == 1
    ensures RowsOf(rows, k) == Add(RowsOf(rows[..0], k), RowFor(rows[0], k))
  {
    assert rows[1..] == [] && rows[..0] == [];
  }

  lemma MergeLast<K>(rows: seq<(K, Counters)>, k: K)
    requires rows != []
    ensures
      var m, row := Merge(rows[..|rows| - 1]), rows[|rows| - 1];
      && (k in Merge(rows) <==> k in m || k == row.0)
      && (k in Merge(rows) ==> Merge(rows)[k] == Add(if k in m then m[k] else ZERO, RowFor(row, k)))
  {
  }

  lemma NoRows<K>(k: K)
    ensures k !in Merge<K>([]) && RowsOf<K>([], k) == ZERO
  {
  }

  /** Merging lists each ID of the rows once, with everything listed under it. */
  lemma {:induction false} MergeAddsUp<K>(rows: seq<(K, Counters)>, k: K)
    ensures RowsOf(rows, k) == if k in Merge(rows) then Merge(rows)[k] else ZERO
    decreases |rows|
  {
    hide Merge, RowsOf;
    if rows == [] {
      NoRows(k);
    } else {
      MergeAddsUp(rows[..|rows| - 1], k);
      RowsOfLast(rows, k);
      MergeLast(rows, k);
    }
  }

  lemma MergeLists<K>(rows: seq<(K, Counters)>, k: K)
    ensures k in Merge(rows) <==> exists i :: 0 <= i < |rows| && rows[i].0 == k
  {
    hide Merge;
    if k in Merge(rows) {
      var r :| r in rows && r.0 == k;
      var i :| 0 <= i < |rows| && rows[i] == r;
      assert rows[i].0 == k;
    }
    forall i | 0 <= i < |rows| && rows[i].0 == k ensures k in Merge(rows) {
      assert rows[i] in rows;
    }
  }

  /** The rows a server lists, entry by entry, each under its ID. */
  ghost function RowsUnder<K(!new), I(!new)>(ks: seq<K>, s: map<K, Counters>, id: K -> I): (rows: seq<(I, Counters)>)
    requires forall k :: k in ks ==> k in s
  {
    if ks == [] then [] else RowsUnder(ks[..|ks| - 1], s, id) + [(id(ks[|ks| - 1]), s[ks[|ks| - 1]])]
  }

  ghost function UnderId<K(!new), I(!new)>(ks: seq<K>, id: K -> I, i: I): set<K> {
    set k | k in ks && id(k) == i
  }

  lemma {:induction false} RowsUnderSum<K(!new), I(!new)>(ks: seq<K>, s: map<K, Counters>, id: K -> I, i: I)
    requires (forall k :: k in ks ==> k in s) && forall a, b :: 0 <= a < b < |ks| ==> ks[a] != ks[b]
    ensures RowsOf(RowsUnder(ks, s, id), i) == Sum(UnderId(ks, id, i), s)
    decreases |ks|
  {
    hide RowsOf, Sum, UnderId;
    if ks == [] {
      NoneUnder(s, id, i);
    } else {
      var n := |ks| - 1;
      var init, last := ks[..n], ks[n];
      RowsUnderSum(init, s, id, i);
      RowAdded(RowsUnder(init, s, id), (id(last), s[last]), i);
      UnderIdLast(ks, id, i);
      if id(last) == i {
        assert UnderId(ks, id, i) <= s.Keys by { UnderIdListed(ks, id, i); }
        SumRemove(UnderId(ks, id, i), s, last);
        AddSwaps(s[last], Sum(UnderId(init, id, i), s));
      }
    }
  }

  lemma AddSwaps(x: Counters, y: Counters)
    ensures Add(x, y) == Add(y, x) && Add(y, ZERO) == y
  {
  }

  lemma NoneUnder<K(!new), I(!new)>(s: map<K, Counters>, id: K -> I, i: I)
    ensures UnderId([], id, i) == {} && RowsOf(RowsUnder([], s, id), i) == ZERO == Sum({}, s)
  {
    assert UnderId([], id, i) == {};
  }

  lemma RowAdded<I(!new)>(rows: seq<(I, Counters)>, row: (I, Counters), i: I)
    ensures RowsOf(rows + [row], i) == if row.0 == i then Add(RowsOf(rows, i), row.1) else RowsOf(rows, i)
  {
    hide RowsOf;
    RowsOfLast(rows + [row], i);
    assert (rows + [row])[..|rows|] == rows;
    AddSwaps(ZERO, RowsOf(rows, i));
  }

  lemma UnderIdListed<K(!new), I(!new)>(ks: seq<K>, id: K -> I, i: I)
    ensures forall k :: k in UnderId(ks, id, i) ==> k in ks
  {
  }

  lemma UnderIdLast<K(!new), I(!new)>(ks: seq<K>, id: K -> I, i: I)
    requires ks != [] && forall a, b :: 0 <= a < b < |ks| ==> ks[a] != ks[b]
    ensures
      var n := |ks| - 1;
      if id(ks[n]) == i then ks[n] in UnderId(ks, id, i) && UnderId(ks, id, i) - {ks[n]} == UnderId(ks[..n], id, i)
      else UnderId(ks, id, i) == UnderId(ks[..n], id, i)
  {
    var n := |ks| - 1;
    var init, last := ks[..n], ks[n];
    assert ks == init + [last] && last !in init;
  }

  /** What Observe makes of a server's rows is the reading whose safety is characterised: the entries of each ID
      summed. */
  lemma MergeIsMerged<K(!new), I(!new)>(ks: seq<K>, s: map<K, Counters>, id: K -> I, i: I)
    requires (forall k :: k in ks <==> k in s) && forall a, b :: 0 <= a < b < |ks| ==> ks[a] != ks[b]
    ensures RowsOf(RowsUnder(ks, s, id), i) == if i in Merged(s, id) then Merged(s, id)[i] else ZERO
  {
    RowsUnderSum(ks, s, id, i);
    assert UnderId(ks, id, i) == KeysOf(s, id, i);
    if i !in Merged(s, id) { assert KeysOf(s, id, i) == {}; }
  }
}
